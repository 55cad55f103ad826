# Blog backend: article and user API, modelled in Dafny

The system is a small Express/Sequelize blog backend. Users sign up and sign
in; a signed-in user gets a JSON Web Token and sends it as
`Authorization: Bearer <token>`. The article routes sit behind an
authentication gate. They create, list, fetch, update and delete
articles, and every article has a title, a description and an image URL.
Every failure is thrown as an error with a `name`. A single error
middleware turns that name into an HTTP status and a message.

The model is made of these modules:

- `Wrappers`: `Option` and `Result`.
- `JsValues`: the JavaScript semantics the handlers depend on.
  - A request-body field is absent, `null` or a string.
  - It defines truthiness, and the `!x === 0` comparison used by the list handler.
- `ErrorMiddleware`: the error-name table, the translator, and the reply each handler sends.
- `ArticleModel`: the Article validator. Its notEmpty rule is the library's: it refuses a string of whitespace only, not just the empty string.
  - It is declared as a table of attributes and rules.
  - It is checked in Sequelize's order: notNull errors for every attribute first, then each present value's rules, attribute by attribute.
- `ArticlesController`:
  - Each handler's outcome is a function of the table's state.
  - `ArticleTable` is a class whose `rows` map and `nextId` counter the handler methods update in place. Each method is proved to produce that outcome.
- `UsersController`:
  - Sign-up is a method on `UserTable`, whose rows are keyed by email.
  - Sign-in is the ordered chain of checks that ends in a signed token.
- `AuthMiddleware`: the gate.
  - It includes JavaScript's `split("Bearer ")`, modelled exactly.
  - It checks the token, then checks that a user with the token's id and email exists.
  - It sets `req.user` on a `Request` object.

Collaborators the handlers call but do not define are parameters:

- the URL check (`isUrl`)
- the User model's validation rules
- password hashing and `compare`
- token `sign` and `verify`
- UUID generation
- the clock

## Model

| member | source | states |
|---|---|---|
| JsValues.NegatedLengthNeverStrictlyZero | controllers/articlesController.js:25 | the guard `!articles.length === 0` never holds, so an empty list is never refused |
| ErrorMiddleware.MessagesOf | middlewares/error-middleware.js:55-57 | one message per validation item, in the items' order |
| ErrorMiddleware.InMessagesOf | middlewares/error-middleware.js:55-57 | a message is reported exactly when some item carries it |
| ErrorMiddleware.Translate | middlewares/error-middleware.js:1-66 | every error gets status 400, 401 or 404; a validation error gets a list of messages; every other name gets a single message |
| ErrorMiddleware.ReplyStatusTellsOutcome | middlewares/error-middleware.js:54-65 | `Send`, the reply a handler's outcome produces: its status equals the handler's success status (200 or 201) exactly when the handler succeeded; a failure answers 400, 401 or 404 with a message body |
| ErrorMiddleware.ValidationErrorsPassThrough | middlewares/error-middleware.js:54-58 | a validation error answers 400 with every item's message, in order |
| ErrorMiddleware.UnknownNameIsBadRequest | middlewares/error-middleware.js:60-64 | a name the system throws that is neither in the table nor a validation error answers 400 "Bad Request" |
| ErrorMiddleware.SignInFailuresIndistinguishable | middlewares/error-middleware.js:7-18 | EmailNotFound, EmailOrPasswordEmpty and WrongPassword give the same 401 answer |
| ErrorMiddleware.TokenFailuresAlike | middlewares/error-middleware.js:39-50 | JsonWebTokenError and InvalidToken both answer 401 "Invalid Token" |
| ErrorMiddleware.NotFoundKindsDistinct | middlewares/error-middleware.js:19-46 | the four not-found names answer 404, each with a different message |
| ErrorMiddleware.GateRefusalsNamed | middlewares/error-middleware.js:31-38 | NoAuthorization and Unauthorized answer 401 with their own messages |
| ErrorMiddleware.UniqueViolationIsEmailRegistered | middlewares/error-middleware.js:3-6 | a unique-key violation answers 400 "Email already registered" |
| ErrorMiddleware.TrailingSpaceNameFallsToDefault | routes/router.js:9-11 | the catch-all's name `"PageNotFound "` misses the table and answers 400 "Bad Request", not 404 |
| ArticleModel.RuleErrorsExact | models/article.js:20-27 | a present value gets an error from a rule exactly when that rule fails; no rule short-circuits another |
| ArticleModel.NullErrorsExact | models/article.js:19-23 | a notNull error is reported exactly for the attributes whose value is null, or absent when absent values count |
| ArticleModel.ValidatorErrorsExact | models/article.js:16-55 | a rule error is reported exactly for a present value that fails that rule |
| ArticleModel.ValidateExact | models/article.js:16-55 | `Validate`, the table-driven validator: it reports an item exactly when its attribute violates notNull or one of its rules |
| ArticleModel.ArticleNullList | models/article.js:19-23 | the notNull items of the Article table, title, description, image_url in that order, each present exactly when its field is null or counts as absent |
| ArticleModel.ArticleRuleList | models/article.js:24-53 | the rule items, title then description then image_url, and for image_url the notEmpty item before the URL item |
| ArticleModel.ArticleErrorList | models/article.js:16-55 | `ValidateArticle` is exactly the ordered list: the three notNull items, then the three notEmpty items, then the URL item, each present exactly when its rule is broken |
| ArticleModel.ArticleErrorsDistinct | models/article.js:16-55 | no broken rule is reported twice |
| ArticleModel.WhitespaceTitleIsEmpty | models/article.js:24-26 | `IsBlank`: notEmpty also refuses a whitespace-only title, which is reported as empty, not as omitted |
| ArticleModel.MessageReported | models/article.js:16-55 | a message appears exactly when some attribute violates the rule that carries it |
| ArticleModel.ArticleRulesSpelledOut | models/article.js:16-55 | the generic violation of the Article table, spelled out field by field |
| ArticleModel.ArticleMessages | models/article.js:16-55 | each of the seven messages is reported exactly when its own condition holds |
| ArticleModel.OnlyDeclaredMessages | models/article.js:16-55 | validation never reports a message the model does not declare |
| ArticleModel.NoErrorsIffAcceptable | models/article.js:16-55 | no errors exactly when every field is present (or may be left out), not blank, and the image URL is URL-shaped |
| ArticlesController.CreateOutcome | controllers/articlesController.js:4-21 | `CreateResult`, createArticle's outcome: create succeeds exactly for an acceptable body, answering 201 with the next id, the body's fields and both timestamps; otherwise 400 with the messages |
| ArticlesController.CreateWithoutTitle | controllers/articlesController.js:4-21 | a body with no title is refused with "Title cannot be omitted" |
| ArticlesController.CreateWithWrongUrl | controllers/articlesController.js:4-21 | an image URL that is not URL-shaped is refused with "Wrong URL format" |
| ArticlesController.UpdateOutcome | controllers/articlesController.js:58-78 | `UpdateResult`, updateArticle's outcome: the body is validated before the row is looked up; a body that sets no field, or a missing row, answers 404; a success changes only the fields present and updatedAt |
| ArticlesController.EmptyBodyUpdatesNothing | controllers/articlesController.js:60-64 | a body with none of the three fields answers 404 "cannot update because data article not found", even for a stored row |
| ArticlesController.PatchedStaysAcceptable | controllers/articlesController.js:63 | an accepted update of a valid row leaves a valid row |
| ArticlesController.RemoveOutcome | controllers/articlesController.js:80-89 | `RemoveResult`, removeArticle's outcome: delete succeeds exactly when the row exists, answering 200 with `{ message: "This articles has been successfully deleted" }`; otherwise 404 "Cannot delete because data not found" |
| ArticlesController.GetOutcome | controllers/articlesController.js:40-56 | `FindByPk`, getArticleById's outcome: a present id answers 200 with its row; a missing one 404 "Data Not Found" |
| ArticlesController.ArticleTable.GetArticleById | controllers/articlesController.js:40-56 | finds the row exactly when the id is stored; the row carries that id and valid fields |
| ArticlesController.ArticleTable.CreateArticle | controllers/articlesController.js:4-21 | produces the create outcome; on success the row is inserted under a fresh id and the counter advances; on failure nothing changes |
| ArticlesController.ArticleTable.GetAllArticle | controllers/articlesController.js:22-38 | always succeeds, even on an empty table; returns every stored row, each exactly once, and nothing else |
| ArticlesController.ArticleTable.UpdateArticle | controllers/articlesController.js:58-78 | produces the update outcome, an empty body included; on success the row is replaced and reads back as the answer; on failure nothing changes |
| ArticlesController.ArticleTable.RemoveArticle | controllers/articlesController.js:80-89 | produces the delete outcome; the id is gone afterwards, and a later get answers DataNotFound |
| ArticlesController.SecondArticleGetsIdTwo | __tests__/articles.test.js:113-132 | after one seeded article, creating an article answers id 2 with the body's fields |
| UsersController.SignUpOutcome | controllers/usersController.js:6-18 | `SignUpResult`, signUp's outcome: sign-up succeeds exactly when validation passes and neither email nor id is taken; answers 201 without the password; otherwise 400 with the messages, or "Email already registered" when the email or the id is taken |
| UsersController.DuplicateEmailIsBadRequest | controllers/usersController.js:9 | an email already stored always answers 400 |
| UsersController.SignInOutcome | controllers/usersController.js:20-32 | `SignIn`, the sign-in chain: the empty check comes first and does not depend on the table; then an email no user has; then a password `compare` rejects; a success answers `{ token }`, the token signed from that user's id and email |
| UsersController.SignInFailuresLookAlike | controllers/usersController.js:20-32 | every sign-in failure answers 401 "Email or Password is Wrong" |
| UsersController.RegisteredUserSignsIn | controllers/usersController.js:6-32 | a user who has just signed up signs in with the same credentials and gets a token for the new id |
| UsersController.UserTable.SignUp | controllers/usersController.js:6-18 | produces the sign-up outcome and keeps emails and ids unique; on success the row is stored under its email; on failure nothing changes |
| AuthMiddleware.FirstOccurrence | middlewares/auth-middleware.js:8 | finds the leftmost occurrence of the separator at or after the start, or reports that there is none |
| AuthMiddleware.SplitJoin | middlewares/auth-middleware.js:8 | `Split`, JavaScript's split on a non-empty separator: joining the split pieces with the separator gives back the header |
| AuthMiddleware.SplitPiecesFree | middlewares/auth-middleware.js:8 | no piece contains the separator |
| AuthMiddleware.OccursInSlice | middlewares/auth-middleware.js:8 | an occurrence in a slice is an occurrence in the whole text |
| AuthMiddleware.OccursInTail | middlewares/auth-middleware.js:8 | an occurrence in the text past a point is an occurrence in its tail |
| AuthMiddleware.BearerNoOverlap | middlewares/auth-middleware.js:8 | two occurrences of "Bearer " never overlap |
| AuthMiddleware.BearerSplitsInTwo | middlewares/auth-middleware.js:8-9 | two pieces exactly when "Bearer " occurs once; the token is everything after that occurrence |
| AuthMiddleware.UserMatchesStored | middlewares/auth-middleware.js:11-12 | the user lookup finds a row exactly when one stored user has both the id and the email |
| AuthMiddleware.AuthenticateOutcome | middlewares/auth-middleware.js:4-18 | `Authenticate`, the gate's outcome: NoAuthorization exactly for a missing or empty header; InvalidToken exactly when "Bearer " does not occur once; JsonWebTokenError exactly when the token after it fails `verify`; Unauthorized exactly when no single stored user has both the verified claim's id and email; success exactly when all four checks pass, and then it is that claim's id and email |
| AuthMiddleware.GateRefusalsAre401 | middlewares/auth-middleware.js:4-18 | every refusal answers 401 with "No Authorization", "Invalid Token" or "Unauthorized" |
| AuthMiddleware.PrefixIgnored | middlewares/auth-middleware.js:8-10 | anything before the single "Bearer " is ignored |
| AuthMiddleware.BareBearerVerifiesEmptyToken | middlewares/auth-middleware.js:8-10 | the header "Bearer " alone passes the split and fails at `verify` with an empty token |
| AuthMiddleware.SignedInTokenPasses | middlewares/auth-middleware.js:4-18 | a token from a successful sign-in passes the gate as that user, given that `verify` inverts `sign` and the token contains no "Bearer " |
| AuthMiddleware.AuthenticationMiddleware | middlewares/auth-middleware.js:4-18 | on success sets `req.user` to the gate's identity and passes no error on; on failure passes the error on and leaves `req.user` unchanged |

## Left out

- Express wiring, the Swagger setup, HTTP parsing and the route table: handlers are called directly with the body and params they would read.
- Persistence and SQL:
  - The tables are in-memory maps.
  - Auto-increment is the `nextId` counter.
  - Timestamps come from a `now` parameter, because there is no clock.
- Unspecified collaborators are parameters, because their code is not part of this model:
  - the URL grammar (`isUrl`)
  - the User model's validation rules, assumed to refuse an absent or null field
  - the salted password hash (the stored digest is a parameter)
  - `compare`
  - JWT `sign` and `verify`
  - UUID generation
- ArticlesController.ArticleTable.GetAllArticle: the model scans ids in ascending order, but its contract does not promise any order, because `findAll` without `order` leaves it to the database.
- A request body's non-string JSON values (numbers, arrays, objects) and non-numeric `:id` params are not modelled. Fields are absent, null or strings; ids are integers.
- The `throw { name: 'SequelizeValidationError' }` lines after `create` and `update` cannot be reached.
  - `create` and `update` always return a row or throw.
  - Reaching them would crash the translator, which reads `errors` from such an error.
  - They are left out.
- The `token` variable in the gate is an undeclared global shared by concurrent requests. Concurrency is not modelled, so the model treats it as local.
- ArticlesController.FindByPk: ids are unbounded integers here, while the table's key is a 32-bit database integer. An id param outside that range makes the database query fail, which answers 400 "Bad Request"; the model answers 404 as for any missing id. The same holds for UpdateResult and RemoveResult.
- ArticlesController.CreateResult: the title column holds at most 255 characters. A longer title makes the insert fail after validation, which answers 400 "Bad Request" and uses up an id; the model accepts any length. The same holds for UpdateResult.
- ArticlesController.ArticleTable.CreateArticle: exhaustion of the id sequence is not modelled.
- Sign-up: a taken primary key is reported as the same unique-constraint error as a taken email.
- ErrorMiddleware.Translate: error names that are members of `Object.prototype` (`constructor`, `toString`, `hasOwnProperty`, `valueOf`, `__proto__` and the like) are not modelled. The source looks names up in a plain object, so such a name would be found through the prototype and the reply would fail with 500; nothing in the system throws such a name, and the model answers 400 "Bad Request" for every name outside its table.
- AuthMiddleware.Authenticate: a verified payload without an `id` or `email` is not modelled; claims always carry both.
- Validation order follows Sequelize: every absent or null field's notNull message comes first, then the rule messages. A description that lists messages field by field differs from this order; the model follows the code's library.
