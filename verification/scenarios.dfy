/**
 Concrete request sequences against a store seeded with two books, as the
 repository and controller tests set them up.
 */
module BookScenarios {
  import opened Wrappers
  import opened Books
  import Repo = BookRepository
  import opened BooksController

  /** The two seed records, before the store assigns their ids. */
  function SeedOne(): Book { Book(0, Some("Book1"), Some("Author1"), Some("1"), None) }
  function SeedTwo(): Book { Book(0, Some("Book2"), Some("Author2"), Some("2"), None) }

  /**
   A fresh database after the two seed records were added; the first
   `SaveChanges` of any later call saves them, so every scenario sees both.
   */
  function Seeded(): (s: Repo.Store)
    ensures Repo.Valid(s)
    ensures s.books == map[1 := SeedOne().(id := 1), 2 := SeedTwo().(id := 2)]
    ensures s.nextId == 3
  {
    var first := Repo.AddBook(Repo.Empty(), SeedOne());
    Repo.AddBook(first.store, SeedTwo()).store
  }

  /** Two books added to a fresh database get ids 1 and 2, and the next one gets id 3. */
  lemma SeededStoreAssignsThree(b1: Book, b2: Book, b3: Book)
    ensures var s1 := Repo.AddBook(Repo.Empty(), b1);
      var s2 := Repo.AddBook(s1.store, b2);
      s1.result.id == 1 && s2.result.id == 2 && Repo.AddBook(s2.store, b3).result.id == 3
  {
  }

  /** Adding to the seeded store assigns id 3, and the book is then found under it. */
  lemma SeededAddGetsThree(b: Book)
    ensures var step := Repo.AddBook(Seeded(), b);
      && step.result.id == 3
      && Repo.GetBookById(step.store, 3) == Some(b.(id := 3))
  {
  }

  /**
   The repository tests: adding a book to the seeded store assigns id 3 and
   finds it; updating id 2 stores the patch's title under 2; deleting id 1
   returns true and a later lookup of 1 finds nothing.
   */
  lemma SeededRepositoryScenario(b: Book)
    ensures var added := Repo.AddBook(Seeded(), b);
      added.result.id == 3 && Repo.GetBookById(added.store, 3).value.id == 3
    ensures var patch := Book(0, Some("Updated Book1"), Some("Updated Author"), Some("2134234"), None);
      Repo.UpdateBook(Seeded(), 2, patch).store.books[2].title == patch.title
    ensures var deleted := Repo.DeleteBook(Seeded(), 1);
      deleted.result && Repo.GetBookById(deleted.store, 1).None?
  {
  }

  /**
   The same seeded store driven through the controller endpoints.
   Lookup of id 2 returns that book; deleting id 1 gives NoContent and a later
   lookup of id 1 gives NotFound; updating id 2 with a new title gives Ok with
   that title, and the record stored under 2 then carries it.
   */
  lemma SeededScenario()
    ensures GetBookById(Seeded(), 2).response == Ok(One(SeedTwo().(id := 2)))
    ensures var afterDelete := DeleteBook(Seeded(), 1);
      && afterDelete.response == NoContent
      && GetBookById(afterDelete.store, 1).response == NotFound(NoBookWithId(1))
    ensures var patch := Book(0, Some("Updated"), Some("Author2"), None, None);
      var updated := UpdateBook(Seeded(), 2, Some(patch));
      && updated.response.Ok?
      && updated.response.payload.book.title == Some("Updated")
      && updated.store.books[2].title == Some("Updated")
  {
  }

  /**
   A successful update answers with the patch it was given, so the body's id
   is the patch's id (0 here), not the id of the record that was changed.
   */
  lemma UpdateAnswersWithPatchId()
    ensures var patch := Book(0, Some("Updated"), Some("Author2"), None, None);
      var updated := UpdateBook(Seeded(), 2, Some(patch));
      && updated.response == Ok(One(patch))
      && updated.response.payload.book.id != 2
      && updated.store.books[2].id == 2
  {
  }

  /** Non-positive ids and invalid bodies are refused before the repository is called. */
  lemma RejectionsMakeNoCalls()
    ensures GetBookById(Seeded(), -99).calls == [] && GetBookById(Seeded(), -99).response.StatusCode() == 400
    ensures DeleteBook(Seeded(), -99).calls == [] && DeleteBook(Seeded(), -99).response.StatusCode() == 400
    ensures AddBook(Seeded(), None).response.StatusCode() == 400
    ensures AddBook(Seeded(), Some(Book(0, Some("X"), Some(""), None, None))).response.StatusCode() == 400
  {
  }

  /** The message texts; the not-found message names the id, in decimal. */
  lemma NotFoundMessageText()
    ensures Text(IdNotPositive) == "ID must be a positive integer."
    ensures Text(BookNull) == "Book cannot be null"
    ensures Text(TitleAndAuthorRequired) == "Book title and author are required"
    ensures Text(NoBookWithId(99)) == "No book with ID 99 found"
    ensures Text(NoBookWithId(-5)) == "No book with ID -5 found"
  {
  }
}
