/**
 * Registration and login. Sign-up inserts into the User table and answers
 * with the new user minus its password; sign-in is an ordered chain of
 * checks (empty fields, unknown email, wrong password) ending in a signed
 * token. The User model's validation rules, the password hashing hook, id
 * generation and the token signer are collaborators given as parameters.
 */
module UsersController {
  import opened Wrappers
  import opened JsValues
  import opened ErrorMiddleware

  /** A stored user; `password` holds the digest the model's hashing hook wrote. */
  datatype User = User(id: string, fullname: string, email: string, password: string)

  /** The sign-up answer: a user without its password. */
  datatype UserView = UserView(id: string, fullname: string, email: string)

  /** The payload signed into a token, and what the gate attaches as `req.user`. */
  datatype Identity = Identity(id: string, email: string)

  /** The body of a successful sign-in: `{ token }`. */
  datatype SignedIn = SignedIn(token: string)

  datatype SignUpInput = SignUpInput(fullname: Field, email: Field, password: Field)

  /** Rows keyed by email, which is unique, and no two rows share an id. */
  ghost predicate Keyed(rows: map<string, User>) {
    && (forall e :: e in rows ==> rows[e].email == e)
    && (forall e1, e2 :: e1 in rows && e2 in rows && rows[e1].id == rows[e2].id ==> e1 == e2)
  }

  /** The User model's rules refuse an absent or null field, each with its "... cannot be omitted" message. */
  ghost predicate RejectsMissing(validate: SignUpInput -> seq<ValidationItem>) {
    forall input :: validate(input) == [] ==> input.fullname.Str? && input.email.Str? && input.password.Str?
  }

  /** The primary key is taken. */
  predicate IdTaken(rows: map<string, User>, id: string) {
    exists e :: e in rows && rows[e].id == id
  }

  /** The row `User.create` inserts once validation passed. */
  function Registered(input: SignUpInput, newId: string, digest: string): User
    requires input.fullname.Str? && input.email.Str?
  {
    User(newId, input.fullname.s, input.email.s, digest)
  }

  /**
   * signUp: the model's validation first; then the insert, which a taken
   * email (or id) refuses with a unique-constraint error; the answer
   * projects the new row to id, fullname and email.
   */
  function SignUpResult(rows: map<string, User>, input: SignUpInput, newId: string, digest: string,
                        validate: SignUpInput -> seq<ValidationItem>): Result<UserView, Thrown>
    requires RejectsMissing(validate)
  {
    var errs := validate(input);
    if errs != [] then Failure(ValidationFailure(errs))
    else if input.email.s in rows || IdTaken(rows, newId) then Failure(Throw(SequelizeUniqueConstraintError))
    else
      var user := Registered(input, newId, digest);
      Success(UserView(user.id, user.fullname, user.email))
  }

  /**
   * signIn: an absent or empty email or password fails before any lookup;
   * then an unknown email, then a password `compare` rejects; otherwise the
   * token signed from the user's id and email.
   */
  function SignIn(rows: map<string, User>, email: Field, password: Field,
                  compare: (string, string) -> bool, sign: Identity -> string): Result<SignedIn, Thrown>
  {
    if IsFalsy(email) || IsFalsy(password) then Failure(Throw(EmailOrPasswordEmpty))
    else if email.s !in rows then Failure(Throw(EmailNotFound))
    else if !compare(password.s, rows[email.s].password) then Failure(Throw(WrongPassword))
    else Success(SignedIn(sign(Identity(rows[email.s].id, rows[email.s].email))))
  }

  /**
   * A sign-up succeeds exactly when validation passes and neither the email
   * nor the id is taken; it answers 201 with id, fullname and email only.
   * Validation failures answer 400 with their messages, and a taken email
   * 400 "Email already registered".
   */
  lemma SignUpOutcome(rows: map<string, User>, input: SignUpInput, newId: string, digest: string,
                      validate: SignUpInput -> seq<ValidationItem>)
    requires RejectsMissing(validate)
    ensures var r := SignUpResult(rows, input, newId, digest, validate);
      && (r.Success? <==> validate(input) == [] && input.email.s !in rows && !IdTaken(rows, newId))
      && (r.Success? ==> Send(r, 201) == Reply(201, Json(UserView(newId, input.fullname.s, input.email.s))))
      && (validate(input) != [] ==> Send(r, 201) == Reply(400, ErrorMessage(List(MessagesOf(validate(input))))))
      && (validate(input) == [] && (input.email.s in rows || IdTaken(rows, newId)) ==>
            Send(r, 201) == Reply(400, ErrorMessage(Text("Email already registered"))))
  {
  }

  /** Registering an email already in use answers 400, whatever the other fields hold. */
  lemma DuplicateEmailIsBadRequest(rows: map<string, User>, input: SignUpInput, newId: string, digest: string,
                                   validate: SignUpInput -> seq<ValidationItem>)
    requires RejectsMissing(validate)
    requires input.email.Str? && input.email.s in rows
    ensures Send(SignUpResult(rows, input, newId, digest, validate), 201).status == 400
  {
  }

  /**
   * Each sign-in outcome, in terms of the users stored: the empty check
   * does not depend on the table, an unknown email is one no user has, a
   * wrong password is one `compare` rejects for the user with that email,
   * and a success is the token signed from that user's id and email.
   */
  lemma SignInOutcome(rows: map<string, User>, email: Field, password: Field,
                      compare: (string, string) -> bool, sign: Identity -> string)
    requires Keyed(rows)
    ensures var r := SignIn(rows, email, password, compare, sign);
      && (r == Failure(Throw(EmailOrPasswordEmpty)) <==> IsFalsy(email) || IsFalsy(password))
      && (r == Failure(Throw(EmailNotFound)) <==>
            !IsFalsy(email) && !IsFalsy(password) && forall u :: u in rows.Values ==> u.email != email.s)
      && (r == Failure(Throw(WrongPassword)) <==>
            !IsFalsy(email) && !IsFalsy(password)
            && exists u :: u in rows.Values && u.email == email.s && !compare(password.s, u.password))
      && (r.Success? <==>
            !IsFalsy(email) && !IsFalsy(password)
            && exists u :: u in rows.Values && u.email == email.s && compare(password.s, u.password))
      && (r.Success? ==>
            exists u :: u in rows.Values && u.email == email.s && r.value == SignedIn(sign(Identity(u.id, u.email))))
      && (r.Success? ==> Send(r, 200) == Reply(200, Json(r.value)))
  {
    var r := SignIn(rows, email, password, compare, sign);
    if !IsFalsy(email) && !IsFalsy(password) {
      if email.s in rows {
        var u := rows[email.s];
        assert u in rows.Values;
        forall v | v in rows.Values && v.email == email.s
          ensures v == u
        {
          var e :| e in rows && rows[e] == v;
        }
      } else {
        forall v | v in rows.Values
          ensures v.email != email.s
        {
          var e :| e in rows && rows[e] == v;
        }
      }
    }
  }

  /** Whatever makes a sign-in fail, the client reads the same 401 "Email or Password is Wrong". */
  lemma SignInFailuresLookAlike(rows: map<string, User>, email: Field, password: Field,
                                compare: (string, string) -> bool, sign: Identity -> string)
    ensures var r := SignIn(rows, email, password, compare, sign);
      r.Failure? ==> Send(r, 200) == Reply(401, ErrorMessage(Text("Email or Password is Wrong")))
  {
  }

  /**
   * A user who has just registered signs in with the same email and
   * password (when the stored digest matches it), and the token is signed
   * from the new id and that email.
   */
  lemma RegisteredUserSignsIn(rows: map<string, User>, input: SignUpInput, newId: string, digest: string,
                              validate: SignUpInput -> seq<ValidationItem>,
                              compare: (string, string) -> bool, sign: Identity -> string)
    requires RejectsMissing(validate)
    requires SignUpResult(rows, input, newId, digest, validate).Success?
    requires input.email != Str("") && input.password != Str("")
    requires compare(input.password.s, digest)
    ensures SignIn(rows[input.email.s := Registered(input, newId, digest)], input.email, input.password, compare, sign)
      == Success(SignedIn(sign(Identity(newId, input.email.s))))
  {
  }

  class UserTable {
    /** The User model's validation rules. */
    const validate: SignUpInput -> seq<ValidationItem>
    var rows: map<string, User>

    ghost predicate Valid()
      reads this
    {
      Keyed(rows) && RejectsMissing(validate)
    }

    constructor (validate: SignUpInput -> seq<ValidationItem>)
      requires RejectsMissing(validate)
      ensures Valid() && this.validate == validate && rows == map[]
    {
      this.validate := validate;
      rows := map[];
    }

    /**
     * signUp: on success the new row is stored under its email and the
     * answer is that row without its password; on failure nothing changes.
     */
    method SignUp(input: SignUpInput, newId: string, digest: string) returns (r: Result<UserView, Thrown>)
      requires Valid()
      modifies this
      ensures Valid()
      ensures r == SignUpResult(old(rows), input, newId, digest, validate)
      ensures r.Success? ==> rows == old(rows)[input.email.s := Registered(input, newId, digest)]
      ensures r.Failure? ==> rows == old(rows)
    {
      r := SignUpResult(rows, input, newId, digest, validate);
      if r.Success? {
        rows := rows[input.email.s := Registered(input, newId, digest)];
      }
    }
  }
}
