/**
 * The article handlers over the Article table: create, list, get by id,
 * update and delete. The table is an object whose rows, keyed by an
 * auto-incremented integer id, the handlers change in place. Every route
 * runs behind the authentication gate, so the handlers assume an
 * authenticated caller.
 */
module ArticlesController {
  import opened Wrappers
  import opened JsValues
  import opened ErrorMiddleware
  import opened ArticleModel

  /** A reading of the server clock; the handlers never inspect it. */
  type Timestamp = int

  /** A stored row, with exactly the six fields every handler returns. */
  datatype Article = Article(id: int, title: string, description: string, imageUrl: string,
                             createdAt: Timestamp, updatedAt: Timestamp)

  /** The body of a successful delete: `{ message }`. */
  datatype Deleted = Deleted(message: string)

  const DeletedMessage := "This articles has been successfully deleted"

  /** A row's three content fields, as a request body would carry them. */
  function AsInput(a: Article): ArticleInput {
    ArticleInput(Str(a.title), Str(a.description), Str(a.imageUrl))
  }

  /** The row `Article.create` inserts: the given id, the three fields, both timestamps `now`. */
  function NewArticle(id: int, input: ArticleInput, now: Timestamp): Article
    requires input.title.Str? && input.description.Str? && input.imageUrl.Str?
  {
    Article(id, input.title.s, input.description.s, input.imageUrl.s, now, now)
  }

  /** An update writes a present field and leaves an omitted one as it was. */
  function FieldOr(f: Field, current: string): string {
    if f.Str? then f.s else current
  }

  /** The row `Article.update` writes: present fields replaced, the id and createdAt kept, updatedAt `now`. */
  function Patched(a: Article, input: ArticleInput, now: Timestamp): Article {
    Article(a.id, FieldOr(input.title, a.title), FieldOr(input.description, a.description),
            FieldOr(input.imageUrl, a.imageUrl), a.createdAt, now)
  }

  // The handlers' outcomes as functions of the table's state; the methods
  // of ArticleTable below are proved to produce them.

  /** createArticle: validation, then an insert under the next id. */
  function CreateResult(nextId: int, input: ArticleInput, now: Timestamp, isUrl: string -> bool): Result<Article, Thrown> {
    var errs := ValidateArticle(input, false, isUrl);
    if errs != [] then Failure(ValidationFailure(errs))
    else
      NoErrorsIffAcceptable(input, false, isUrl);
      Success(NewArticle(nextId, input, now))
  }

  /** getArticleById: the row, or DataNotFound. */
  function FindByPk(rows: map<int, Article>, id: int): Result<Article, Thrown> {
    if id in rows then Success(rows[id]) else Failure(Throw(DataNotFound))
  }

  /**
   * A body with none of the three fields: `Article.update` is left with
   * only the updatedAt stamp, skips the query and reports no affected row.
   */
  predicate NothingToUpdate(input: ArticleInput) {
    input.title.Omitted? && input.description.Omitted? && input.imageUrl.Omitted?
  }

  /**
   * updateArticle: `Article.update(data, { where: { id } })` validates the
   * fields present in the body first; only then does an empty body or a
   * missing row give cantUpdateArticle.
   */
  function UpdateResult(rows: map<int, Article>, id: int, input: ArticleInput, now: Timestamp, isUrl: string -> bool): Result<Article, Thrown> {
    var errs := ValidateArticle(input, true, isUrl);
    if errs != [] then Failure(ValidationFailure(errs))
    else if NothingToUpdate(input) || id !in rows then Failure(Throw(CantUpdateArticle))
    else Success(Patched(rows[id], input, now))
  }

  /** removeArticle: zero deleted rows give ErrNotFound. */
  function RemoveResult(rows: map<int, Article>, id: int): Result<Deleted, Thrown> {
    if id in rows then Success(Deleted(DeletedMessage)) else Failure(Throw(ErrNotFound))
  }

  /**
   * A create succeeds exactly when the body is acceptable; it then answers
   * 201 with the next id and the body's three fields, and otherwise 400
   * with the validation messages.
   */
  lemma CreateOutcome(nextId: int, input: ArticleInput, now: Timestamp, isUrl: string -> bool)
    ensures var r := CreateResult(nextId, input, now, isUrl);
      && (r.Success? <==> Acceptable(input, false, isUrl))
      && (r.Success? ==>
            && Send(r, 201) == Reply(201, Json(r.value))
            && r.value.id == nextId
            && Str(r.value.title) == input.title
            && Str(r.value.description) == input.description
            && Str(r.value.imageUrl) == input.imageUrl
            && r.value.createdAt == now && r.value.updatedAt == now)
      && (r.Failure? ==>
            Send(r, 201) == Reply(400, ErrorMessage(List(MessagesOf(ValidateArticle(input, false, isUrl))))))
  {
    NoErrorsIffAcceptable(input, false, isUrl);
  }

  /** A body missing its title is refused with "Title cannot be omitted" among the messages. */
  lemma CreateWithoutTitle(nextId: int, input: ArticleInput, now: Timestamp, isUrl: string -> bool)
    requires input.title.Omitted?
    ensures var reply := Send(CreateResult(nextId, input, now, isUrl), 201);
      reply.status == 400 && reply.body.ErrorMessage? && reply.body.message.List?
      && TitleOmitted in reply.body.message.items
  {
    ArticleMessages(input, false, isUrl);
  }

  /** An image_url that is not URL-shaped is refused with "Wrong URL format" among the messages. */
  lemma CreateWithWrongUrl(nextId: int, input: ArticleInput, now: Timestamp, isUrl: string -> bool)
    requires input.imageUrl.Str? && !isUrl(input.imageUrl.s)
    ensures var reply := Send(CreateResult(nextId, input, now, isUrl), 201);
      reply.status == 400 && reply.body.ErrorMessage? && reply.body.message.List?
      && WrongUrlFormat in reply.body.message.items
  {
    ArticleMessages(input, false, isUrl);
  }

  /**
   * An update succeeds exactly when the fields present are acceptable, at
   * least one field is present, and the row exists. Validation comes
   * first; a valid body that sets no field, or names a missing row,
   * answers 404 "cannot update because data article not found". A success
   * keeps the id and createdAt, takes every present field from the body,
   * keeps every omitted one, and refreshes updatedAt.
   */
  lemma UpdateOutcome(rows: map<int, Article>, id: int, input: ArticleInput, now: Timestamp, isUrl: string -> bool)
    requires forall k :: k in rows ==> rows[k].id == k
    ensures var r := UpdateResult(rows, id, input, now, isUrl);
      && (r.Success? <==> Acceptable(input, true, isUrl) && !NothingToUpdate(input) && id in rows)
      && (!Acceptable(input, true, isUrl) ==>
            Send(r, 200) == Reply(400, ErrorMessage(List(MessagesOf(ValidateArticle(input, true, isUrl))))))
      && (Acceptable(input, true, isUrl) && (NothingToUpdate(input) || id !in rows) ==>
            Send(r, 200) == Reply(404, ErrorMessage(Text("cannot update because data article not found"))))
      && (r.Success? ==>
            && Send(r, 200) == Reply(200, Json(r.value))
            && r.value.id == id
            && r.value.title == (if input.title.Str? then input.title.s else rows[id].title)
            && r.value.description == (if input.description.Str? then input.description.s else rows[id].description)
            && r.value.imageUrl == (if input.imageUrl.Str? then input.imageUrl.s else rows[id].imageUrl)
            && r.value.createdAt == rows[id].createdAt && r.value.updatedAt == now)
  {
    NoErrorsIffAcceptable(input, true, isUrl);
  }

  /** A body that sets no field updates nothing, even for a stored row: 404 "cannot update because data article not found". */
  lemma EmptyBodyUpdatesNothing(rows: map<int, Article>, id: int, input: ArticleInput, now: Timestamp, isUrl: string -> bool)
    requires NothingToUpdate(input)
    ensures Send(UpdateResult(rows, id, input, now, isUrl), 200)
      == Reply(404, ErrorMessage(Text("cannot update because data article not found")))
  {
    NoErrorsIffAcceptable(input, true, isUrl);
  }

  /** An update keeps the table's invariant: a valid row patched by an accepted body is still valid. */
  lemma PatchedStaysAcceptable(a: Article, input: ArticleInput, now: Timestamp, isUrl: string -> bool)
    requires Acceptable(AsInput(a), false, isUrl) && Acceptable(input, true, isUrl)
    ensures Acceptable(AsInput(Patched(a, input, now)), false, isUrl)
  {
  }

  /** A delete succeeds exactly when the row exists; a missing row answers 404 "Cannot delete because data not found". */
  lemma RemoveOutcome(rows: map<int, Article>, id: int)
    ensures var r := RemoveResult(rows, id);
      && (r.Success? <==> id in rows)
      && (r.Success? ==> Send(r, 200) == Reply(200, Json(Deleted("This articles has been successfully deleted"))))
      && (r.Failure? ==> Send(r, 200) == Reply(404, ErrorMessage(Text("Cannot delete because data not found"))))
  {
  }

  /** A missing id answers 404 "Data Not Found"; a present one answers 200 with that row. */
  lemma GetOutcome(rows: map<int, Article>, id: int)
    ensures var r := FindByPk(rows, id);
      && (id in rows ==> Send(r, 200) == Reply(200, Json(rows[id])))
      && (id !in rows ==> Send(r, 200) == Reply(404, ErrorMessage(Text("Data Not Found"))))
  {
  }

  class ArticleTable {
    /** The URL grammar of the isUrl rule. */
    const isUrl: string -> bool
    var rows: map<int, Article>
    /** The value the id sequence hands out next. */
    var nextId: int

    /** Ids are the keys, all below the sequence, and every stored row passes the Article rules. */
    ghost predicate Valid()
      reads this
    {
      && 1 <= nextId
      && forall id :: id in rows ==>
           1 <= id < nextId && rows[id].id == id && Acceptable(AsInput(rows[id]), false, isUrl)
    }

    constructor (isUrl: string -> bool)
      ensures Valid() && this.isUrl == isUrl
      ensures rows == map[] && nextId == 1
    {
      this.isUrl := isUrl;
      rows := map[];
      nextId := 1;
    }

    /** getArticleById: the row under `id`, which carries that id and passes the rules, or DataNotFound. */
    function GetArticleById(id: int): (r: Result<Article, Thrown>)
      requires Valid()
      reads this
      ensures r == FindByPk(rows, id)
      ensures r.Success? <==> id in rows
      ensures r.Success? ==> r.value.id == id && Acceptable(AsInput(r.value), false, isUrl)
    {
      if id in rows then Success(rows[id]) else Failure(Throw(DataNotFound))
    }

    /** createArticle: on success the row is inserted under the next id and the sequence advances. */
    method CreateArticle(input: ArticleInput, now: Timestamp) returns (r: Result<Article, Thrown>)
      requires Valid()
      modifies this
      ensures Valid()
      ensures r == CreateResult(old(nextId), input, now, isUrl)
      ensures r.Success? ==> r.value.id !in old(rows) && rows == old(rows)[r.value.id := r.value] && nextId == old(nextId) + 1
      ensures r.Failure? ==> rows == old(rows) && nextId == old(nextId)
    {
      r := CreateResult(nextId, input, now, isUrl);
      if r.Success? {
        CreateOutcome(nextId, input, now, isUrl);
        rows := rows[nextId := r.value];
        nextId := nextId + 1;
      }
    }

    /**
     * getAllArticle: every stored row exactly once. The rows are gathered in
     * ascending id order; the contract promises no order. The guard
     * `!articles.length === 0` never holds, so an empty table answers an
     * empty list, never DataNotFound.
     */
    method GetAllArticle() returns (r: Result<seq<Article>, Thrown>)
      requires Valid()
      ensures r.Success? && Send(r, 200) == Reply(200, Json(r.value))
      ensures forall a :: a in r.value ==> a.id in rows && rows[a.id] == a
      ensures forall id :: id in rows ==> rows[id] in r.value
      ensures forall j, k :: 0 <= j < k < |r.value| ==> r.value[j].id != r.value[k].id
    {
      var articles: seq<Article> := [];
      var i := 1;
      while i < nextId
        invariant 1 <= i <= nextId
        invariant forall a :: a in articles ==> a.id in rows && rows[a.id] == a && a.id < i
        invariant forall id :: id in rows && id < i ==> rows[id] in articles
        invariant forall j, k :: 0 <= j < k < |articles| ==> articles[j].id < articles[k].id
      {
        if i in rows {
          articles := articles + [rows[i]];
        }
        i := i + 1;
      }
      NegatedLengthNeverStrictlyZero(|articles|);
      r := if StrictEquals(Not(Number(|articles|)), Number(0)) then Failure(Throw(DataNotFound)) else Success(articles);
    }

    /** updateArticle: on success only the row under `id` changes, and reading it back gives the update. */
    method UpdateArticle(id: int, input: ArticleInput, now: Timestamp) returns (r: Result<Article, Thrown>)
      requires Valid()
      modifies this
      ensures Valid()
      ensures r == UpdateResult(old(rows), id, input, now, isUrl)
      ensures nextId == old(nextId)
      ensures r.Success? ==> rows == old(rows)[id := r.value] && GetArticleById(id) == r
      ensures r.Failure? ==> rows == old(rows)
    {
      r := UpdateResult(rows, id, input, now, isUrl);
      if r.Success? {
        NoErrorsIffAcceptable(input, true, isUrl);
        PatchedStaysAcceptable(rows[id], input, now, isUrl);
        rows := rows[id := r.value];
      }
    }

    /** removeArticle: the row under `id` is gone afterwards, and reading it gives DataNotFound. */
    method RemoveArticle(id: int) returns (r: Result<Deleted, Thrown>)
      requires Valid()
      modifies this
      ensures Valid()
      ensures r == RemoveResult(old(rows), id)
      ensures rows == old(rows) - {id} && nextId == old(nextId)
      ensures GetArticleById(id) == Failure(Throw(DataNotFound))
    {
      r := RemoveResult(rows, id);
      rows := rows - {id};
    }
  }

  /**
   * The article tests' scenario: a fresh table, one seeded row, then a
   * create of an acceptable body answers with id 2 and the body's fields.
   */
  method SecondArticleGetsIdTwo(isUrl: string -> bool, seed: ArticleInput, body: ArticleInput, seededAt: Timestamp, now: Timestamp)
    returns (r: Result<Article, Thrown>)
    requires Acceptable(seed, false, isUrl) && Acceptable(body, false, isUrl)
    ensures r.Success? && r.value.id == 2
    ensures Str(r.value.title) == body.title && Str(r.value.description) == body.description && Str(r.value.imageUrl) == body.imageUrl
  {
    var table := new ArticleTable(isUrl);
    CreateOutcome(1, seed, seededAt, isUrl);
    var seeded := table.CreateArticle(seed, seededAt);
    CreateOutcome(2, body, now, isUrl);
    r := table.CreateArticle(body, now);
  }
}
