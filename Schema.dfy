/** The GraphQL record shapes of the book catalog and the two root query
    resolvers, `book(id)` and `books`. The dataset loaded from `./data` is
    not part of this model; every resolver takes it as a parameter. */
module Schema {
  import opened Wrappers

  /** A selectable word of a page. The GraphQL `position` list is read only
      at its first two entries, `position[0]` (the first character) and
      `position[1]` (the last character, inclusive); they are `start` and
      `end` here. */
  datatype Token = Token(start: int, end: int, value: string)

  datatype Page = Page(number: int, content: string, tokens: seq<Token>)

  datatype Book = Book(id: string, title: string, author: string, pages: seq<Page>)

  /** `books.find(book => book.id === args.id)`: a left-to-right scan that
      stops at the first book whose id is `id`, and is absent (`undefined`)
      when there is none. */
  function FindBook(books: seq<Book>, id: string): (r: Option<Book>)
    ensures r.Some? ==> r.value.id == id && r.value in books
    ensures r.None? <==> forall b :: b in books ==> b.id != id
    ensures r.Some? ==> exists k :: 0 <= k < |books| && books[k] == r.value && NoMatchBefore(books, id, k)
  {
    if books == [] then None
    else if books[0].id == id then
      assert NoMatchBefore(books, id, 0);
      Some(books[0])
    else
      var r := FindBook(books[1..], id);
      assert forall b :: b in books ==> b == books[0] || b in books[1..];
      if r.Some? then
        var k :| 0 <= k < |books| - 1 && books[1..][k] == r.value && NoMatchBefore(books[1..], id, k);
        assert books[k + 1] == r.value && NoMatchBefore(books, id, k + 1);
        r
      else r
  }

  /** No book before index `k` has the id `id`. */
  predicate NoMatchBefore(books: seq<Book>, id: string, k: int)
    requires 0 <= k <= |books|
  {
    forall j :: 0 <= j < k ==> books[j].id != id
  }

  /** The `books` resolver: the whole dataset, as loaded and in its order. */
  function AllBooks(books: seq<Book>): (r: seq<Book>)
    ensures r == books
  {
    books
  }

  /** The result of a lookup is pinned down by the first index at which the
      id occurs: whatever book `k` is, when it is the first with that id the
      lookup returns exactly it. */
  lemma {:induction false} FindBookFirst(books: seq<Book>, id: string, k: nat)
    requires k < |books| && books[k].id == id && NoMatchBefore(books, id, k)
    ensures FindBook(books, id) == Some(books[k])
  {
    if k > 0 {
      assert books[0].id != id;
      assert NoMatchBefore(books[1..], id, k - 1) by {
        forall j | 0 <= j < k - 1 ensures books[1..][j].id != id {
          assert books[1..][j] == books[j + 1];
        }
      }
      FindBookFirst(books[1..], id, k - 1);
    }
  }

  /** Ids are unique in the dataset. */
  predicate UniqueIds(books: seq<Book>)
  {
    forall i, j :: 0 <= i < j < |books| ==> books[i].id != books[j].id
  }

  /** In a dataset whose ids are unique, looking up any book's id yields
      that book. */
  lemma LookupOfUniqueId(books: seq<Book>, k: nat)
    requires UniqueIds(books) && k < |books|
    ensures FindBook(books, books[k].id) == Some(books[k])
  {
    FindBookFirst(books, books[k].id, k);
  }

  /** Books appended after the dataset cannot change a lookup that already
      succeeds on it: the scan stops at the first match. */
  lemma {:induction false} FindBookStopsAtFirst(books: seq<Book>, more: seq<Book>, id: string)
    requires FindBook(books, id).Some?
    ensures FindBook(books + more, id) == FindBook(books, id)
  {
    if books[0].id != id {
      assert (books + more)[1..] == books[1..] + more;
      FindBookStopsAtFirst(books[1..], more, id);
    }
  }
}
