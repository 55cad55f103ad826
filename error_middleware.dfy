/**
 * The error translator: every handler forwards what it throws to one
 * function that turns the error's name (or, for a validation error, its
 * list of items) into an HTTP status and a JSON `message`.
 */
module ErrorMiddleware {
  import opened Wrappers

  // The error names thrown by the handlers, the gate and the stores.
  const SequelizeValidationError := "SequelizeValidationError"
  const SequelizeUniqueConstraintError := "SequelizeUniqueConstraintError"
  const EmailNotFound := "EmailNotFound"
  const EmailOrPasswordEmpty := "EmailOrPasswordEmpty"
  const WrongPassword := "WrongPassword"
  const ErrNotFound := "ErrNotFound"
  const PageNotFound := "PageNotFound"
  const DataNotFound := "DataNotFound"
  const NoAuthorization := "NoAuthorization"
  const Unauthorized := "Unauthorized"
  const JsonWebTokenError := "JsonWebTokenError"
  const CantUpdateArticle := "cantUpdateArticle"
  const InvalidToken := "InvalidToken"

  const SignInFailedMessage := "Email or Password is Wrong"
  const InvalidTokenMessage := "Invalid Token"

  /** One entry of a validation error's `errors` list: the attribute and the rule's message. */
  datatype ValidationItem = ValidationItem(path: string, message: string)

  /** A thrown error: its `name` and, for a validation error, its `errors` list. */
  datatype Thrown = Thrown(name: string, errors: seq<ValidationItem>)

  /** `throw { name }`: a literal error object without an `errors` list. */
  function Throw(name: string): Thrown {
    Thrown(name, [])
  }

  /** What Sequelize throws when validation rejects an instance. */
  function ValidationFailure(items: seq<ValidationItem>): Thrown {
    Thrown(SequelizeValidationError, items)
  }

  datatype Entry = Entry(code: int, message: string)

  /** The lookup object of the translator. */
  const ErrorTable: map<string, Entry> := map[
    SequelizeUniqueConstraintError := Entry(400, "Email already registered"),
    EmailNotFound := Entry(401, SignInFailedMessage),
    EmailOrPasswordEmpty := Entry(401, SignInFailedMessage),
    WrongPassword := Entry(401, SignInFailedMessage),
    ErrNotFound := Entry(404, "Cannot delete because data not found"),
    PageNotFound := Entry(404, "Oopss.. Nothing Here"),
    DataNotFound := Entry(404, "Data Not Found"),
    NoAuthorization := Entry(401, "No Authorization"),
    Unauthorized := Entry(401, "Unauthorized"),
    JsonWebTokenError := Entry(401, InvalidTokenMessage),
    CantUpdateArticle := Entry(404, "cannot update because data article not found"),
    InvalidToken := Entry(401, InvalidTokenMessage)
  ]

  /** The answer for a name the table does not know. */
  const Default := Entry(400, "Bad Request")

  /** The JSON `message` of an error reply: one string, or the list of validation messages. */
  datatype Message = Text(text: string) | List(items: seq<string>)

  datatype ErrorResponse = ErrorResponse(status: int, message: Message)

  /** `error.errors.map(e => e.message)`: the messages, one per item, in the items' order. */
  function MessagesOf(items: seq<ValidationItem>): (messages: seq<string>)
    ensures |messages| == |items|
    ensures forall i :: 0 <= i < |items| ==> messages[i] == items[i].message
  {
    if items == [] then [] else [items[0].message] + MessagesOf(items[1..])
  }

  /** A message occurs in the list exactly when some item carries it. */
  lemma InMessagesOf(items: seq<ValidationItem>, msg: string)
    ensures msg in MessagesOf(items) <==> exists i :: 0 <= i < |items| && items[i].message == msg
  {
    var messages := MessagesOf(items);
    if msg in messages {
      var i :| 0 <= i < |messages| && messages[i] == msg;
      assert items[i].message == msg;
    }
  }

  /**
   * The translator. A validation error answers 400 with the list of its
   * messages; any other name is looked up in the table, and an unknown name
   * answers 400 "Bad Request". Every answer is a client error.
   */
  function Translate(e: Thrown): (r: ErrorResponse)
    ensures r.status in {400, 401, 404}
    ensures e.name == SequelizeValidationError ==> r.message.List? && r.message.items == MessagesOf(e.errors)
    ensures e.name != SequelizeValidationError ==> r.message.Text?
  {
    if e.name == SequelizeValidationError then
      ErrorResponse(400, List(MessagesOf(e.errors)))
    else
      var entry := if e.name in ErrorTable then ErrorTable[e.name] else Default;
      ErrorResponse(entry.code, Text(entry.message))
  }

  /** What the client receives: the handler's JSON with its success status, or the translated error. */
  datatype Reply<T> = Reply(status: int, body: Body<T>)
  datatype Body<T> = Json(value: T) | ErrorMessage(message: Message)

  /** `res.status(okStatus).json(value)` on success, `next(error)` into the translator otherwise. */
  function Send<T>(r: Result<T, Thrown>, okStatus: int): Reply<T> {
    match r
    case Success(v) => Reply(okStatus, Json(v))
    case Failure(e) =>
      var response := Translate(e);
      Reply(response.status, ErrorMessage(response.message))
  }

  /**
   * A handler's reply tells success from failure by its status alone: the
   * handlers answer 200 or 201 on success, and every failure answers 400,
   * 401 or 404 with a message body.
   */
  lemma ReplyStatusTellsOutcome<T>(r: Result<T, Thrown>, okStatus: int)
    requires okStatus == 200 || okStatus == 201
    ensures Send(r, okStatus).status == okStatus <==> r.Success?
    ensures r.Failure? ==> Send(r, okStatus).status in {400, 401, 404} && Send(r, okStatus).body.ErrorMessage?
  {
  }

  /** A validation error answers 400 with every item's message, in the items' order. */
  lemma ValidationErrorsPassThrough(items: seq<ValidationItem>)
    ensures Translate(ValidationFailure(items)).status == 400
    ensures var ms := Translate(ValidationFailure(items)).message;
      ms.List? && |ms.items| == |items| && forall i :: 0 <= i < |items| ==> ms.items[i] == items[i].message
  {
  }

  /** A name outside the table, other than a validation error, answers 400 "Bad Request". */
  lemma UnknownNameIsBadRequest(e: Thrown)
    requires e.name != SequelizeValidationError && e.name !in ErrorTable
    ensures Translate(e) == ErrorResponse(400, Text("Bad Request"))
  {
  }

  /** The three sign-in failures give the client one and the same answer. */
  lemma SignInFailuresIndistinguishable()
    ensures Translate(Throw(EmailNotFound)) == ErrorResponse(401, Text(SignInFailedMessage))
    ensures Translate(Throw(EmailOrPasswordEmpty)) == ErrorResponse(401, Text(SignInFailedMessage))
    ensures Translate(Throw(WrongPassword)) == ErrorResponse(401, Text(SignInFailedMessage))
  {
  }

  /** A failed token verification, under either name, answers 401 "Invalid Token". */
  lemma TokenFailuresAlike()
    ensures Translate(Throw(JsonWebTokenError)) == ErrorResponse(401, Text(InvalidTokenMessage))
    ensures Translate(Throw(InvalidToken)) == ErrorResponse(401, Text(InvalidTokenMessage))
  {
  }

  /** The four not-found kinds answer 404, each with a message of its own. */
  lemma NotFoundKindsDistinct()
    ensures Translate(Throw(ErrNotFound)) == ErrorResponse(404, Text("Cannot delete because data not found"))
    ensures Translate(Throw(DataNotFound)) == ErrorResponse(404, Text("Data Not Found"))
    ensures Translate(Throw(CantUpdateArticle)) == ErrorResponse(404, Text("cannot update because data article not found"))
    ensures Translate(Throw(PageNotFound)) == ErrorResponse(404, Text("Oopss.. Nothing Here"))
    ensures var ms := [Translate(Throw(ErrNotFound)).message, Translate(Throw(DataNotFound)).message,
                       Translate(Throw(CantUpdateArticle)).message, Translate(Throw(PageNotFound)).message];
      forall i, j :: 0 <= i < j < 4 ==> ms[i] != ms[j]
  {
  }

  /** The gate's own refusals answer 401 with their names as messages. */
  lemma GateRefusalsNamed()
    ensures Translate(Throw(NoAuthorization)) == ErrorResponse(401, Text("No Authorization"))
    ensures Translate(Throw(Unauthorized)) == ErrorResponse(401, Text("Unauthorized"))
  {
  }

  /** A duplicate key on insert answers 400 "Email already registered". */
  lemma UniqueViolationIsEmailRegistered()
    ensures Translate(Throw(SequelizeUniqueConstraintError)) == ErrorResponse(400, Text("Email already registered"))
  {
  }

  /**
   * The catch-all route forwards the name "PageNotFound " with a trailing
   * space; the table has no such key, so the translator alone answers with
   * the default.
   */
  lemma TrailingSpaceNameFallsToDefault()
    ensures Translate(Throw("PageNotFound ")) == ErrorResponse(400, Text("Bad Request"))
  {
    assert "PageNotFound " != PageNotFound by {
      assert |"PageNotFound "| != |PageNotFound|;
    }
    assert "PageNotFound " != EmailNotFound by {
      assert "PageNotFound "[0] != EmailNotFound[0];
    }
  }
}
