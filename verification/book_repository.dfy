/**
 The repository: the five operations of the book-repository interface over a
 store that maps each id to its book, together with the identity source that
 hands out fresh ids. Every operation is a pure function from the store before
 the call to the store after it and the value the call returns.
 */
module BookRepository {
  import opened Wrappers
  import opened Books

  /**
   The Books table keyed by id, and the next id the store will assign.
   Ids are handed out in increasing order and never handed out twice.
   */
  datatype Store = Store(books: map<int, Book>, nextId: int)

  /** What one repository call leaves behind: the new store and the call's return value. */
  datatype Step<R> = Step(store: Store, result: R)

  /** Every book is stored under its own id. */
  predicate KeyedById(books: map<int, Book>) {
    forall k :: k in books ==> books[k].id == k
  }

  /**
   The store invariant: every key is a positive id already handed out by the
   identity source, and every book is stored under its own id. It holds
   because this model's AddBook always takes its id from that source.
   */
  predicate Valid(s: Store) {
    && 1 <= s.nextId
    && KeyedById(s.books)
    && forall k :: k in s.books ==> 1 <= k < s.nextId
  }

  /** A freshly created database: no books, identity starting at 1. */
  function Empty(): (s: Store)
    ensures Valid(s)
    ensures |s.books| == 0
  {
    Store(map[], 1)
  }

  /** The keys below `n` (and at least 1) that are present in `books`. */
  function KeysBelow(books: map<int, Book>, n: int): set<int> {
    set k | k in books && 1 <= k < n
  }

  /** The books with ids in `[1, n)`, in increasing order of id. */
  function ListBelow(books: map<int, Book>, n: int): (r: seq<Book>)
    requires KeyedById(books)
    ensures forall i :: 0 <= i < |r| ==> 1 <= r[i].id < n && r[i].id in books && books[r[i].id] == r[i]
    ensures forall i, j :: 0 <= i < j < |r| ==> r[i].id < r[j].id
    decreases n
  {
    if n <= 1 then []
    else
      var prefix := ListBelow(books, n - 1);
      if n - 1 !in books then prefix
      else
        var r := prefix + [books[n - 1]];
        assert forall i :: 0 <= i < |prefix| ==> r[i] == prefix[i];
        r
  }

  /** The listing below `n` leaves out no stored book whose id is below `n`. */
  lemma {:induction false} ListBelowComplete(books: map<int, Book>, n: int, k: int)
    requires KeyedById(books)
    requires k in books && 1 <= k < n
    ensures books[k] in ListBelow(books, n)
    decreases n
  {
    if k < n - 1 {
      ListBelowComplete(books, n - 1, k);
    }
  }

  /** Raising the bound by one adds the key just below it, if that key is stored. */
  lemma KeysBelowStep(books: map<int, Book>, n: int)
    requires n > 1
    ensures |KeysBelow(books, n)| == |KeysBelow(books, n - 1)| + (if n - 1 in books then 1 else 0)
  {
    var below := KeysBelow(books, n - 1);
    assert n - 1 !in below;
    if n - 1 in books {
      assert KeysBelow(books, n) == below + {n - 1};
    } else {
      assert KeysBelow(books, n) == below;
    }
  }

  /** The listing below `n` holds exactly one entry per key below `n`. */
  lemma {:induction false} ListBelowLength(books: map<int, Book>, n: int)
    requires KeyedById(books)
    ensures |ListBelow(books, n)| == |KeysBelow(books, n)|
    decreases n
  {
    if n <= 1 {
      assert KeysBelow(books, n) == {};
    } else {
      ListBelowLength(books, n - 1);
      KeysBelowStep(books, n);
    }
  }

  /**
   GetAllBooks: every stored book, each exactly once (ids strictly increase,
   which is this model's choice of the store-defined order), and nothing else.
   An empty store yields the empty sequence.
   */
  function GetAllBooks(s: Store): (r: seq<Book>)
    requires Valid(s)
    ensures |r| == |s.books|
    ensures forall i :: 0 <= i < |r| ==> r[i].id in s.books && s.books[r[i].id] == r[i]
    ensures forall k :: k in s.books ==> s.books[k] in r
    ensures forall i, j :: 0 <= i < j < |r| ==> r[i].id < r[j].id
  {
    ListBelowLength(s.books, s.nextId);
    assert KeysBelow(s.books, s.nextId) == s.books.Keys;
    forall k | k in s.books
      ensures s.books[k] in ListBelow(s.books, s.nextId)
    {
      ListBelowComplete(s.books, s.nextId, k);
    }
    ListBelow(s.books, s.nextId)
  }

  /**
   GetBookById (`Find`): the book stored under `id`, or `None` when there is none.
   It does not check the sign of `id`. Because this model assigns every id
   from a counter starting at 1, a non-positive id is never a key here.
   */
  function GetBookById(s: Store, id: int): (r: Option<Book>)
    ensures r.Some? <==> id in s.books
    ensures r.Some? ==> r.value == s.books[id]
    ensures Valid(s) && r.Some? ==> r.value.id == id
    ensures Valid(s) && id <= 0 ==> r.None?
  {
    if id in s.books then Some(s.books[id]) else None
  }

  /**
   AddBook: the candidate is stored under a fresh id that was never handed out
   before, and the same book, now carrying that id, is returned.
   */
  function AddBook(s: Store, book: Book): (step: Step<Book>)
    requires Valid(s)
    ensures Valid(step.store)
    ensures step.result.id !in s.books
    ensures s.nextId <= step.result.id < step.store.nextId
    ensures step.result == book.(id := step.result.id)
    ensures step.store.books == s.books[step.result.id := step.result]
  {
    var added := book.(id := s.nextId);
    Step(Store(s.books[s.nextId := added], s.nextId + 1), added)
  }

  /**
   UpdateBook: not an upsert. On an absent id nothing changes and the result is
   `None`. On a present id the stored record keeps its id and takes the patch's
   title, author, ISBN and publication date; every other record is untouched;
   and what is returned is the patch argument itself, not the stored record.
   */
  function UpdateBook(s: Store, id: int, patch: Book): (step: Step<Option<Book>>)
    ensures step.result.None? <==> id !in s.books
    ensures id !in s.books ==> step.store == s
    ensures step.result.Some? ==> step.result.value == patch
    ensures step.store.nextId == s.nextId
    ensures step.store.books.Keys == s.books.Keys
    ensures forall k :: k in s.books && k != id ==> step.store.books[k] == s.books[k]
    ensures id in s.books ==>
      var b := step.store.books[id];
      && b.id == s.books[id].id
      && b.title == patch.title
      && b.author == patch.author
      && b.isbn == patch.isbn
      && b.publishedDate == patch.publishedDate
    ensures Valid(s) ==> Valid(step.store)
  {
    if id !in s.books then Step(s, None)
    else
      var stored := s.books[id];
      var patched := stored.(title := patch.title, author := patch.author,
                             isbn := patch.isbn, publishedDate := patch.publishedDate);
      Step(s.(books := s.books[id := patched]), Some(patch))
  }

  /**
   DeleteBook: `true` exactly when a record was stored under `id`; that record,
   and only that one, is removed. The identity source is not rewound.
   */
  function DeleteBook(s: Store, id: int): (step: Step<bool>)
    ensures step.result <==> id in s.books
    ensures !step.result ==> step.store == s
    ensures step.store.books.Keys == s.books.Keys - {id}
    ensures forall k :: k in step.store.books ==> step.store.books[k] == s.books[k]
    ensures step.store.nextId == s.nextId
    ensures Valid(s) ==> Valid(step.store)
  {
    if id !in s.books then Step(s, false)
    else Step(s.(books := s.books - {id}), true)
  }

  /** One call through the repository interface, with its arguments. */
  datatype Call =
    | CallGetAll
    | CallGetById(id: int)
    | CallAdd(book: Book)
    | CallUpdate(id: int, patch: Book)
    | CallDelete(id: int)

  /** What a call through the repository interface returns. */
  datatype Reply =
    | Listed(books: seq<Book>)
    | Found(found: Option<Book>)
    | Added(added: Book)
    | Updated(updated: Option<Book>)
    | Deleted(removed: bool)

  /** The reply has the return type of the call's interface method. */
  predicate Answers(c: Call, r: Reply) {
    match c
    case CallGetAll => r.Listed?
    case CallGetById(_) => r.Found?
    case CallAdd(_) => r.Added?
    case CallUpdate(_, _) => r.Updated?
    case CallDelete(_) => r.Deleted?
  }

  /**
   Dispatches one call to the operation it names. Reads change nothing; the
   set of ids grows only through AddBook and shrinks only through a DeleteBook
   that returned true; a record's contents change only through UpdateBook on
   that record's id.
   */
  function Execute(s: Store, c: Call): (step: Step<Reply>)
    requires Valid(s)
    ensures Valid(step.store)
    ensures Answers(c, step.result)
    ensures s.nextId <= step.store.nextId
    ensures c.CallGetAll? || c.CallGetById? ==> step.store == s
    ensures forall k :: k in step.store.books && k !in s.books ==>
      c.CallAdd? && step.result == Added(step.store.books[k]) && s.nextId <= k
    ensures forall k :: k in s.books && k !in step.store.books ==>
      c == CallDelete(k) && step.result == Deleted(true)
    ensures forall k :: k in s.books && k in step.store.books && step.store.books[k] != s.books[k] ==>
      c.CallUpdate? && c.id == k
  {
    match c
    case CallGetAll => Step(s, Listed(GetAllBooks(s)))
    case CallGetById(id) => Step(s, Found(GetBookById(s, id)))
    case CallAdd(book) =>
      var step := AddBook(s, book);
      Step(step.store, Added(step.result))
    case CallUpdate(id, patch) =>
      var step := UpdateBook(s, id, patch);
      Step(step.store, Updated(step.result))
    case CallDelete(id) =>
      var step := DeleteBook(s, id);
      Step(step.store, Deleted(step.result))
  }

  /** The store after a sequence of calls, one after the other. */
  function Run(s: Store, calls: seq<Call>): (s': Store)
    requires Valid(s)
    ensures Valid(s')
    ensures s.nextId <= s'.nextId
    decreases |calls|
  {
    if |calls| == 0 then s
    else Run(Execute(s, calls[0]).store, calls[1..])
  }

  /**
   Ids are never reused: an id the identity source has already handed out
   that is not in the store now will not be in it after any further calls.
   */
  lemma {:induction false} IdsNeverReused(s: Store, calls: seq<Call>, id: int)
    requires Valid(s)
    requires id < s.nextId && id !in s.books
    ensures id !in Run(s, calls).books
    decreases |calls|
  {
    if |calls| > 0 {
      var step := Execute(s, calls[0]);
      IdsNeverReused(step.store, calls[1..], id);
    }
  }

  /** Lookup and listing agree: a book is found under `id` exactly when it is listed with that id. */
  lemma FindAgreesWithList(s: Store, id: int, b: Book)
    requires Valid(s)
    ensures GetBookById(s, id) == Some(b) <==> b in GetAllBooks(s) && b.id == id
  {
    var all := GetAllBooks(s);
    if b in all && b.id == id {
      var i :| 0 <= i < |all| && all[i] == b;
      assert all[i].id in s.books;
    }
  }

  /** A created book is found again, with every field as given except the assigned id. */
  lemma AddThenFind(s: Store, book: Book)
    requires Valid(s)
    ensures var step := AddBook(s, book);
      GetBookById(step.store, step.result.id) == Some(book.(id := step.result.id))
  {
  }

  /** Creating a book lengthens the listing by exactly one. */
  lemma AddGrowsListByOne(s: Store, book: Book)
    requires Valid(s)
    ensures |GetAllBooks(AddBook(s, book).store)| == |GetAllBooks(s)| + 1
  {
    var step := AddBook(s, book);
    assert step.store.books.Keys == s.books.Keys + {step.result.id};
  }

  /** After a delete of an id that existed, a lookup of that id finds nothing. */
  lemma DeleteThenFind(s: Store, id: int)
    requires Valid(s)
    requires id in s.books
    ensures var step := DeleteBook(s, id);
      step.result && GetBookById(step.store, id).None?
      && |GetAllBooks(step.store)| == |GetAllBooks(s)| - 1
  {
  }

  /** Updating an absent id creates nothing: the listing is the same afterwards. */
  lemma UpdateAbsentCreatesNothing(s: Store, id: int, patch: Book)
    requires Valid(s)
    requires id !in s.books
    ensures var step := UpdateBook(s, id, patch);
      step.result.None? && GetAllBooks(step.store) == GetAllBooks(s)
  {
  }
}
