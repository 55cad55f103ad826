/**
 * The authentication gate in front of the article routes. It reads the
 * Authorization header, splits it on "Bearer " exactly as JavaScript's
 * String.prototype.split does, verifies the second piece as a token, and
 * looks up a user with the token's id and email; on success it attaches
 * that identity to the request. Token verification is a parameter.
 */
module AuthMiddleware {
  import opened Wrappers
  import opened JsValues
  import opened ErrorMiddleware
  import opened UsersController

  /** The payload a verified token carries: what sign-in signed, plus the issue time. */
  datatype Claim = Claim(id: string, email: string, iat: int)

  const Bearer: string := "Bearer "

  /** `sep` occurs in `s` starting at index `i`. */
  predicate OccursAt(s: string, sep: string, i: int) {
    0 <= i && i + |sep| <= |s| && s[i..i + |sep|] == sep
  }

  /** `sep` does not occur anywhere in `s`. */
  ghost predicate Free(s: string, sep: string) {
    forall j :: !OccursAt(s, sep, j)
  }

  /** `i` is the one place `sep` occurs in `s`. */
  ghost predicate OnlyOccurrence(s: string, sep: string, i: int) {
    OccursAt(s, sep, i) && forall j :: OccursAt(s, sep, j) ==> j == i
  }

  /** The leftmost occurrence of `sep` in `s` at or after `from`, if any. */
  function FirstOccurrence(s: string, sep: string, from: nat): (r: Option<nat>)
    requires from <= |s|
    decreases |s| - from
    ensures r.Some? ==> from <= r.value && OccursAt(s, sep, r.value)
    ensures r.Some? ==> forall j :: from <= j < r.value ==> !OccursAt(s, sep, j)
    ensures r.None? ==> forall j :: from <= j ==> !OccursAt(s, sep, j)
  {
    if from + |sep| > |s| then None
    else if s[from..from + |sep|] == sep then Some(from)
    else FirstOccurrence(s, sep, from + 1)
  }

  /**
   * `s[from..].split(sep)` for a non-empty separator: the text up to each
   * leftmost occurrence, scanning on past it, then the rest.
   */
  function Split(s: string, sep: string, from: nat): (pieces: seq<string>)
    requires |sep| > 0 && from <= |s|
    decreases |s| - from
    ensures |pieces| >= 1
  {
    match FirstOccurrence(s, sep, from)
    case None => [s[from..]]
    case Some(i) => [s[from..i]] + Split(s, sep, i + |sep|)
  }

  /** `pieces.join(sep)`. */
  function Join(pieces: seq<string>, sep: string): string
    requires |pieces| >= 1
  {
    if |pieces| == 1 then pieces[0] else pieces[0] + sep + Join(pieces[1..], sep)
  }

  /** Splitting loses nothing: joining the pieces back with the separator gives the text. */
  lemma {:induction false} SplitJoin(s: string, sep: string, from: nat)
    requires |sep| > 0 && from <= |s|
    decreases |s| - from
    ensures Join(Split(s, sep, from), sep) == s[from..]
  {
    match FirstOccurrence(s, sep, from)
    case None =>
    case Some(i) =>
      SplitJoin(s, sep, i + |sep|);
      assert s[from..] == s[from..i] + sep + s[i + |sep|..];
  }

  /** An occurrence inside a slice is an occurrence in the whole text. */
  lemma OccursInSlice(s: string, sep: string, lo: int, hi: int, j: int)
    requires 0 <= lo <= hi <= |s| && OccursAt(s[lo..hi], sep, j)
    ensures OccursAt(s, sep, lo + j)
  {
    forall k | 0 <= k < |sep|
      ensures s[lo + j + k] == sep[k]
    {
      assert s[lo..hi][j..j + |sep|][k] == sep[k];
    }
  }

  /** An occurrence past `lo` in the text is an occurrence in its tail from `lo`. */
  lemma OccursInTail(s: string, sep: string, lo: int, j: int)
    requires 0 <= lo <= |s| && 0 <= j && OccursAt(s, sep, lo + j)
    ensures OccursAt(s[lo..], sep, j)
  {
    forall k | 0 <= k < |sep|
      ensures s[lo..][j + k] == sep[k]
    {
      assert s[lo + j..lo + j + |sep|][k] == sep[k];
    }
  }

  /** No piece contains the separator. */
  lemma {:induction false} SplitPiecesFree(s: string, sep: string, from: nat)
    requires |sep| > 0 && from <= |s|
    decreases |s| - from
    ensures forall k :: 0 <= k < |Split(s, sep, from)| ==> Free(Split(s, sep, from)[k], sep)
  {
    var pieces := Split(s, sep, from);
    match FirstOccurrence(s, sep, from)
    case None =>
      assert s[from..] == s[from..|s|];
      forall j | OccursAt(s[from..], sep, j)
        ensures false
      {
        OccursInSlice(s, sep, from, |s|, j);
      }
    case Some(i) =>
      SplitPiecesFree(s, sep, i + |sep|);
      forall j | OccursAt(s[from..i], sep, j)
        ensures false
      {
        OccursInSlice(s, sep, from, i, j);
      }
      forall k | 1 <= k < |pieces|
        ensures Free(pieces[k], sep)
      {
        assert pieces[k] == Split(s, sep, i + |sep|)[k - 1];
      }
  }

  /** Two occurrences of "Bearer " never overlap: no proper prefix of it is also a suffix. */
  lemma BearerNoOverlap(s: string, i: int, j: int)
    requires OccursAt(s, Bearer, i) && OccursAt(s, Bearer, j) && i <= j < i + |Bearer|
    ensures i == j
  {
    assert s[j] == Bearer[0];
    assert s[j] == Bearer[j - i];
  }

  /**
   * Splitting a header on "Bearer " yields exactly two pieces if and only
   * if "Bearer " occurs exactly once; the second piece is then everything
   * after that occurrence.
   */
  lemma BearerSplitsInTwo(s: string)
    ensures |Split(s, Bearer, 0)| == 2 <==> exists i :: OnlyOccurrence(s, Bearer, i)
    ensures forall i :: OnlyOccurrence(s, Bearer, i) ==> Split(s, Bearer, 0)[1] == s[i + |Bearer|..]
  {
    match FirstOccurrence(s, Bearer, 0)
    case None =>
      assert |Split(s, Bearer, 0)| == 1;
    case Some(i) =>
      var rest := Split(s, Bearer, i + |Bearer|);
      assert Split(s, Bearer, 0) == [s[..i]] + rest;
      match FirstOccurrence(s, Bearer, i + |Bearer|)
      case None =>
        forall j | OccursAt(s, Bearer, j)
          ensures j == i
        {
          if j > i && j < i + |Bearer| {
            BearerNoOverlap(s, i, j);
          }
        }
        assert OnlyOccurrence(s, Bearer, i);
      case Some(k) =>
        assert |rest| >= 2;
        forall i' | OnlyOccurrence(s, Bearer, i')
          ensures false
        {
        }
  }

  /** Sequelize's `User.findOne({ where: { id, email } })` finds a row. */
  predicate UserMatches(users: map<string, User>, id: string, email: string) {
    exists e :: e in users && users[e].id == id && users[e].email == email
  }

  /**
   * authenticationMiddleware, as a value: a missing or empty header, a
   * header that does not split into exactly two pieces, a token `verify`
   * refuses, and a claim no stored user matches each fail with their own
   * error name; otherwise the claim's id and email become `req.user`.
   */
  function Authenticate(authorization: Option<string>, verify: string -> Option<Claim>,
                        users: map<string, User>): Result<Identity, Thrown>
  {
    if authorization.None? || authorization.value == "" then Failure(Throw(NoAuthorization))
    else
      var token := Split(authorization.value, Bearer, 0);
      if |token| != 2 then Failure(Throw(InvalidToken))
      else match verify(token[1])
        case None => Failure(Throw(JsonWebTokenError))
        case Some(claim) =>
          if !UserMatches(users, claim.id, claim.email) then Failure(Throw(Unauthorized))
          else Success(Identity(claim.id, claim.email))
  }

  /** `findOne` over the stored rows is a search of the stored users. */
  lemma UserMatchesStored(users: map<string, User>, id: string, email: string)
    ensures UserMatches(users, id, email) <==> exists u :: u in users.Values && u.id == id && u.email == email
  {
    if exists u :: u in users.Values && u.id == id && u.email == email {
      var u :| u in users.Values && u.id == id && u.email == email;
      var e :| e in users && users[e] == u;
    }
    if UserMatches(users, id, email) {
      var e :| e in users && users[e].id == id && users[e].email == email;
      assert users[e] in users.Values;
    }
  }

  /**
   * Each outcome of the gate in terms of the header itself: no header or an
   * empty one, a header where "Bearer " does not occur exactly once, a
   * token after it that does not verify, a verified claim whose id and
   * email no single stored user has together; and a success is exactly the
   * verified claim's id and email, and every request that passes all four
   * checks is let through.
   */
  lemma AuthenticateOutcome(authorization: Option<string>, verify: string -> Option<Claim>,
                            users: map<string, User>)
    ensures var r := Authenticate(authorization, verify, users);
      && (r == Failure(Throw(NoAuthorization)) <==> authorization == None || authorization == Some(""))
      && (r == Failure(Throw(InvalidToken)) <==>
            authorization.Some? && authorization.value != ""
            && !exists i :: OnlyOccurrence(authorization.value, Bearer, i))
      && (r == Failure(Throw(JsonWebTokenError)) <==>
            authorization.Some? && authorization.value != ""
            && exists i :: OnlyOccurrence(authorization.value, Bearer, i)
                           && verify(authorization.value[i + |Bearer|..]).None?)
      && (r == Failure(Throw(Unauthorized)) <==>
            authorization.Some? && authorization.value != ""
            && exists i :: OnlyOccurrence(authorization.value, Bearer, i)
                           && verify(authorization.value[i + |Bearer|..]).Some?
                           && var c := verify(authorization.value[i + |Bearer|..]).value;
                              forall u :: u in users.Values ==> !(u.id == c.id && u.email == c.email))
      && (r.Success? <==>
            authorization.Some? && authorization.value != ""
            && exists i :: OnlyOccurrence(authorization.value, Bearer, i)
                           && verify(authorization.value[i + |Bearer|..]).Some?
                           && var c := verify(authorization.value[i + |Bearer|..]).value;
                              exists u :: u in users.Values && u.id == c.id && u.email == c.email)
      && (r.Success? ==>
            && authorization.Some?
            && (exists i :: OnlyOccurrence(authorization.value, Bearer, i)
                            && verify(authorization.value[i + |Bearer|..]).Some?
                            && var c := verify(authorization.value[i + |Bearer|..]).value;
                               r.value == Identity(c.id, c.email))
            && exists u :: u in users.Values && u.id == r.value.id && u.email == r.value.email)
  {
    if authorization.Some? && authorization.value != "" {
      var s := authorization.value;
      BearerSplitsInTwo(s);
      if exists i :: OnlyOccurrence(s, Bearer, i) {
        var i :| OnlyOccurrence(s, Bearer, i);
        forall i' | OnlyOccurrence(s, Bearer, i')
          ensures i' == i
        {
        }
        var token := s[i + |Bearer|..];
        assert Split(s, Bearer, 0)[1] == token;
        if verify(token).Some? {
          var c := verify(token).value;
          UserMatchesStored(users, c.id, c.email);
        }
      }
    }
  }

  /** Every refusal by the gate answers 401, with one of three messages. */
  lemma GateRefusalsAre401(authorization: Option<string>, verify: string -> Option<Claim>,
                           users: map<string, User>)
    ensures var r := Authenticate(authorization, verify, users);
      r.Failure? ==>
        && Send(r, 200).status == 401
        && Send(r, 200).body.message in {Text("No Authorization"), Text("Invalid Token"), Text("Unauthorized")}
  {
  }

  /**
   * Whatever precedes the single "Bearer " in the header is ignored: the
   * gate answers as it would for the header that starts at "Bearer ".
   */
  lemma PrefixIgnored(prefix: string, token: string, verify: string -> Option<Claim>, users: map<string, User>)
    requires OnlyOccurrence(prefix + Bearer + token, Bearer, |prefix|)
    ensures Authenticate(Some(prefix + Bearer + token), verify, users) == Authenticate(Some(Bearer + token), verify, users)
  {
    var long := prefix + Bearer + token;
    var short := Bearer + token;
    assert short == long[|prefix|..] == long[|prefix|..|long|];
    assert OccursAt(short, Bearer, 0);
    forall j | OccursAt(short, Bearer, j)
      ensures j == 0
    {
      OccursInSlice(long, Bearer, |prefix|, |long|, j);
    }
    BearerSplitsInTwo(long);
    BearerSplitsInTwo(short);
    assert long[|prefix| + |Bearer|..] == token;
    assert short[|Bearer|..] == token;
  }

  /** A header of "Bearer " alone reaches the token check with an empty token. */
  lemma BareBearerVerifiesEmptyToken(verify: string -> Option<Claim>, users: map<string, User>)
    requires verify("") == None
    ensures Authenticate(Some(Bearer), verify, users) == Failure(Throw(JsonWebTokenError))
  {
    forall j | OccursAt(Bearer, Bearer, j)
      ensures j == 0
    {
    }
    BearerSplitsInTwo(Bearer);
    assert Bearer[|Bearer|..] == "";
  }

  /**
   * A token from a successful sign-in, sent as "Bearer <token>", passes the
   * gate as the user who signed in, provided `verify` gives back what
   * `sign` signed and the token itself does not contain "Bearer ".
   */
  lemma SignedInTokenPasses(users: map<string, User>, email: Field, password: Field,
                            compare: (string, string) -> bool, sign: Identity -> string,
                            verify: string -> Option<Claim>, token: string)
    requires Keyed(users)
    requires SignIn(users, email, password, compare, sign) == Success(SignedIn(token))
    requires forall x :: verify(sign(x)).Some? && verify(sign(x)).value.id == x.id && verify(sign(x)).value.email == x.email
    requires Free(token, Bearer)
    ensures Authenticate(Some(Bearer + token), verify, users) == Success(Identity(users[email.s].id, email.s))
  {
    var header := Bearer + token;
    assert OccursAt(header, Bearer, 0);
    assert header[|Bearer|..] == token;
    forall j | OccursAt(header, Bearer, j)
      ensures j == 0
    {
      if j >= |Bearer| {
        OccursInTail(header, Bearer, |Bearer|, j - |Bearer|);
      } else if j > 0 {
        BearerNoOverlap(header, 0, j);
      }
    }
    BearerSplitsInTwo(header);
    var u := users[email.s];
    assert token == sign(Identity(u.id, u.email));
    assert UserMatches(users, u.id, u.email);
  }

  /** An incoming request: its Authorization header and the `user` the gate attaches. */
  class Request {
    const authorization: Option<string>
    var user: Option<Identity>

    constructor (authorization: Option<string>)
      ensures this.authorization == authorization && user == None
    {
      this.authorization := authorization;
      user := None;
    }
  }

  /**
   * authenticationMiddleware: on success sets `req.user` and passes no
   * error on; on failure passes the error on and leaves the request as it
   * was.
   */
  method AuthenticationMiddleware(req: Request, verify: string -> Option<Claim>, users: map<string, User>)
    returns (error: Option<Thrown>)
    modifies req
    ensures match Authenticate(req.authorization, verify, users)
      case Success(identity) => error == None && req.user == Some(identity)
      case Failure(e) => error == Some(e) && req.user == old(req.user)
  {
    match Authenticate(req.authorization, verify, users)
    case Success(identity) =>
      req.user := Some(identity);
      error := None;
    case Failure(e) =>
      error := Some(e);
  }
}
