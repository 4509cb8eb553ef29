/**
 The request handler of the books API. Each endpoint validates its input,
 then either rejects the request with a client error without calling the
 repository, or makes exactly one repository call and maps that call's
 outcome to a status.
 */
module BooksController {
  import opened Wrappers
  import opened Books
  import Repo = BookRepository

  /** The five endpoints with their inputs; a `None` body is a null body. */
  datatype Request =
    | GetAllRequest
    | GetByIdRequest(id: int)
    | AddRequest(body: Option<Book>)
    | UpdateRequest(id: int, body: Option<Book>)
    | DeleteRequest(id: int)

  /** The human-readable message a client error carries. */
  datatype Message =
    | IdNotPositive
    | BookNull
    | TitleAndAuthorRequired
    | NoBookWithId(id: int)

  /** What an Ok result carries: the whole listing or a single book. */
  datatype Payload = Many(books: seq<Book>) | One(book: Book)

  /**
   The action results. `Created` keeps only the route value `id` of the
   location it points at, and the created book as its body.
   */
  datatype Response =
    | Ok(payload: Payload)
    | Created(routeId: int, created: Book)
    | NoContent
    | BadRequest(message: Message)
    | NotFound(message: Message)
  {
    /** The HTTP status code of the result. */
    function StatusCode(): int {
      match this
      case Ok(_) => 200
      case Created(_, _) => 201
      case NoContent => 204
      case BadRequest(_) => 400
      case NotFound(_) => 404
    }
  }

  /** A decimal digit as a character. */
  function Digit(d: nat): char
    requires d < 10
  {
    "0123456789"[d]
  }

  /** The decimal spelling of a natural number, without leading zeros. */
  function NatToString(n: nat): string
    decreases n
  {
    if n < 10 then [Digit(n)] else NatToString(n / 10) + [Digit(n % 10)]
  }

  /** The decimal spelling of an integer, with a leading minus when negative. */
  function IntToString(i: int): string {
    if i < 0 then "-" + NatToString(-i) else NatToString(i)
  }

  /** The text of a message as the API sends it. */
  function Text(m: Message): string {
    match m
    case IdNotPositive => "ID must be a positive integer."
    case BookNull => "Book cannot be null"
    case TitleAndAuthorRequired => "Book title and author are required"
    case NoBookWithId(id) => "No book with ID " + IntToString(id) + " found"
  }

  /** What validation decides: reject outright, or delegate one call to the repository. */
  datatype Decision = Reject(response: Response) | Delegate(call: Repo.Call)

  /** The repository call carries the request's own id and body. */
  predicate Serves(req: Request, c: Repo.Call) {
    match req
    case GetAllRequest => c == Repo.CallGetAll
    case GetByIdRequest(id) => c == Repo.CallGetById(id)
    case AddRequest(body) => body.Some? && c == Repo.CallAdd(body.value)
    case UpdateRequest(id, body) => body.Some? && c == Repo.CallUpdate(id, body.value)
    case DeleteRequest(id) => c == Repo.CallDelete(id)
  }

  /**
   The validation guards of every endpoint. A rejection is always a client
   error; a delegation always forwards the request's own arguments. Listing
   is never rejected, and neither is an update with a body, whatever its id.
   */
  function Route(req: Request): (d: Decision)
    ensures d.Reject? ==> d.response.BadRequest?
    ensures d.Delegate? ==> Serves(req, d.call)
    ensures req.GetAllRequest? || (req.UpdateRequest? && req.body.Some?) ==> d.Delegate?
  {
    match req
    case GetAllRequest => Delegate(Repo.CallGetAll)
    case GetByIdRequest(id) =>
      if id <= 0 then Reject(BadRequest(IdNotPositive))
      else Delegate(Repo.CallGetById(id))
    case AddRequest(body) =>
      if body.None? then Reject(BadRequest(BookNull))
      else if IsNullOrEmpty(body.value.title) || IsNullOrEmpty(body.value.author) then
        Reject(BadRequest(TitleAndAuthorRequired))
      else Delegate(Repo.CallAdd(body.value))
    case UpdateRequest(id, body) =>
      if body.None? then Reject(BadRequest(BookNull))
      else Delegate(Repo.CallUpdate(id, body.value))
    case DeleteRequest(id) =>
      if id <= 0 then Reject(BadRequest(IdNotPositive))
      else Delegate(Repo.CallDelete(id))
  }

  /**
   Maps a repository outcome to a status. It never yields a client error, and
   it yields NotFound, naming the requested id, exactly for a null lookup, a
   null update or a failed delete.
   */
  function Translate(c: Repo.Call, reply: Repo.Reply): (r: Response)
    requires Repo.Answers(c, reply)
    ensures !r.BadRequest?
    ensures r.NotFound? <==> reply in {Repo.Found(None), Repo.Updated(None), Repo.Deleted(false)}
    ensures r.NotFound? ==> r.message == NoBookWithId(c.id)
  {
    match reply
    case Listed(books) => Ok(Many(books))
    case Found(found) =>
      if found.None? then NotFound(NoBookWithId(c.id)) else Ok(One(found.value))
    case Added(added) => Created(added.id, added)
    case Updated(updated) =>
      if updated.None? then NotFound(NoBookWithId(c.id)) else Ok(One(updated.value))
    case Deleted(removed) =>
      if !removed then NotFound(NoBookWithId(c.id)) else NoContent
  }

  /** One request's effect: the response, the store afterwards, and the repository calls made. */
  datatype Exchange = Exchange(response: Response, store: Repo.Store, calls: seq<Repo.Call>)

  /**
   Handles one request. A client error is returned exactly when the repository
   was not called, and then the store is untouched; otherwise exactly one call,
   serving the request, was made.
   */
  function Handle(req: Request, s: Repo.Store): (x: Exchange)
    requires Repo.Valid(s)
    ensures Repo.Valid(x.store)
    ensures x.response.BadRequest? <==> x.calls == []
    ensures x.calls == [] ==> x.store == s
    ensures x.calls != [] ==> |x.calls| == 1 && Serves(req, x.calls[0])
  {
    match Route(req)
    case Reject(response) => Exchange(response, s, [])
    case Delegate(c) =>
      var step := Repo.Execute(s, c);
      Exchange(Translate(c, step.result), step.store, [c])
  }

  /** GET /api/books: no validation; Ok with exactly the repository's listing. */
  function GetAllBooks(s: Repo.Store): (x: Exchange)
    requires Repo.Valid(s)
    ensures x.response == Ok(Many(Repo.GetAllBooks(s)))
    ensures x.store == s && x.calls == [Repo.CallGetAll]
  {
    Handle(GetAllRequest, s)
  }

  /**
   GET /api/books/{id}: a non-positive id is a client error and the repository
   is not consulted; otherwise NotFound when nothing is stored under the id,
   and Ok with exactly the stored book when something is.
   */
  function GetBookById(s: Repo.Store, id: int): (x: Exchange)
    requires Repo.Valid(s)
    ensures id <= 0 ==> x == Exchange(BadRequest(IdNotPositive), s, [])
    ensures id > 0 ==> x.store == s && x.calls == [Repo.CallGetById(id)]
    ensures id > 0 && id !in s.books ==> x.response == NotFound(NoBookWithId(id))
    ensures id > 0 && id in s.books ==> x.response == Ok(One(s.books[id]))
  {
    Handle(GetByIdRequest(id), s)
  }

  /**
   POST /api/books: a null body, or a null or empty title or author, is a
   client error and the repository is not called. Otherwise the book is
   created under a fresh id, and the result is Created with route value that
   id and, as body, the book the repository returned.
   */
  function AddBook(s: Repo.Store, body: Option<Book>): (x: Exchange)
    requires Repo.Valid(s)
    ensures body.None? ==> x == Exchange(BadRequest(BookNull), s, [])
    ensures body.Some? && !HasTitleAndAuthor(body.value) ==>
      x == Exchange(BadRequest(TitleAndAuthorRequired), s, [])
    ensures body.Some? && HasTitleAndAuthor(body.value) ==>
      && x.calls == [Repo.CallAdd(body.value)]
      && x.response.Created?
      && x.response.routeId == x.response.created.id
      && x.response.created == body.value.(id := x.response.routeId)
      && x.response.routeId !in s.books
      && s.nextId <= x.response.routeId < x.store.nextId
      && x.store.books == s.books[x.response.routeId := x.response.created]
  {
    Handle(AddRequest(body), s)
  }

  /**
   PUT /api/books: only a null body is rejected; the id's sign and the
   title and author are not checked. NotFound when nothing is stored under
   the id (and nothing changes); otherwise Ok with the patch itself, after
   the stored record took the patch's four editable fields, and nothing
   else in the store changed.
   */
  function UpdateBook(s: Repo.Store, id: int, body: Option<Book>): (x: Exchange)
    requires Repo.Valid(s)
    ensures body.None? ==> x == Exchange(BadRequest(BookNull), s, [])
    ensures body.Some? ==> x.calls == [Repo.CallUpdate(id, body.value)]
    ensures body.Some? && id !in s.books ==> x.response == NotFound(NoBookWithId(id)) && x.store == s
    ensures body.Some? && id in s.books ==>
      && x.response == Ok(One(body.value))
      && x.store == s.(books := s.books[id := body.value.(id := id)])
  {
    Handle(UpdateRequest(id, body), s)
  }

  /**
   DELETE /api/books/{id}: a non-positive id is a client error and the
   repository is not called; otherwise NotFound when nothing was stored
   under the id, and NoContent after removing exactly that record.
   */
  function DeleteBook(s: Repo.Store, id: int): (x: Exchange)
    requires Repo.Valid(s)
    ensures id <= 0 ==> x == Exchange(BadRequest(IdNotPositive), s, [])
    ensures id > 0 ==> x.calls == [Repo.CallDelete(id)]
    ensures id > 0 && id !in s.books ==> x.response == NotFound(NoBookWithId(id)) && x.store == s
    ensures id > 0 && id in s.books ==> x.response == NoContent && x.store == s.(books := s.books - {id})
  {
    Handle(DeleteRequest(id), s)
  }

  /** Every stored book has a non-empty title and author. */
  predicate AllTitled(s: Repo.Store) {
    forall k :: k in s.books ==> HasTitleAndAuthor(s.books[k])
  }

  /** Creating through the API keeps every stored book titled and authored. */
  lemma AddKeepsTitled(s: Repo.Store, body: Option<Book>)
    requires Repo.Valid(s) && AllTitled(s)
    ensures AllTitled(AddBook(s, body).store)
  {
  }

  /**
   Updating through the API does not: the update endpoint checks neither
   title nor author, so a blank title reaches the store.
   */
  lemma UpdateMayStoreBlankTitle()
    ensures var s := Repo.AddBook(Repo.Empty(), Book(0, Some("Book1"), Some("Author1"), None, None)).store;
      var blank := Book(0, Some(""), Some("Author1"), None, None);
      AllTitled(s) && !AllTitled(UpdateBook(s, 1, Some(blank)).store)
  {
    var s := Repo.AddBook(Repo.Empty(), Book(0, Some("Book1"), Some("Author1"), None, None)).store;
    var blank := Book(0, Some(""), Some("Author1"), None, None);
    assert UpdateBook(s, 1, Some(blank)).store.books[1].title == Some("");
  }
}
