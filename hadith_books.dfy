/** The rules of the book list screen (app/HadithBooks/index.jsx): the book
    list built from the book-name dataset and the search box's filter. */
module HadithBooks {
  import opened Seqs
  import opened Strings

  /** An entry of the book-name dataset (`Book_Number`, `Book_Name`,
      `Hadith_Count`). */
  datatype BookNameEntry = BookNameEntry(bookNumber: int, bookName: string, hadithCount: int)

  /** A book as the list shows it. */
  datatype Book = Book(bookNumber: int, bookName: string, count: int)

  /** `booksArray`: one book per dataset entry, in dataset order, with the
      number, name and hadith count carried over. */
  function BooksArray(entries: seq<BookNameEntry>): (books: seq<Book>)
    ensures |books| == |entries|
    ensures forall i :: 0 <= i < |entries| ==>
      && books[i].bookNumber == entries[i].bookNumber
      && books[i].bookName == entries[i].bookName
      && books[i].count == entries[i].hadithCount
  {
    if entries == [] then []
    else
      var e := entries[0];
      [Book(e.bookNumber, e.bookName, e.hadithCount)] + BooksArray(entries[1..])
  }

  /** The search test for one book against the lower-cased query. */
  predicate BookMatches(book: Book, lowercaseQuery: string)
  {
    Contains(Lower(book.bookName), lowercaseQuery) || Contains(IntToDecimal(book.bookNumber), lowercaseQuery)
  }

  /** `filteredBooks`: every book for an empty query; otherwise the books
      whose lower-cased name or whose number contains the lower-cased
      query. */
  function FilteredBooks(books: seq<Book>, searchQuery: string): seq<Book>
  {
    if searchQuery == "" then books
    else
      var lowercaseQuery := Lower(searchQuery);
      Filter(books, (b: Book) => BookMatches(b, lowercaseQuery))
  }

  /** An empty query shows every book; otherwise a book is shown exactly
      when its lower-cased name or its number contains the lower-cased
      query, each shown as often as the list holds it, and the shown books
      keep their order. */
  lemma FilteredBooksLaws(books: seq<Book>, searchQuery: string)
    ensures searchQuery == "" ==> FilteredBooks(books, searchQuery) == books
    ensures searchQuery != "" ==> forall b :: b in FilteredBooks(books, searchQuery) <==>
      b in books && (Contains(Lower(b.bookName), Lower(searchQuery)) ||
                     Contains(IntToDecimal(b.bookNumber), Lower(searchQuery)))
    ensures searchQuery != "" ==> forall b :: (multiset(FilteredBooks(books, searchQuery))[b] ==
        if BookMatches(b, Lower(searchQuery)) then multiset(books)[b] else 0)
    ensures IsSubsequence(FilteredBooks(books, searchQuery), books)
  {
    if searchQuery == "" {
      FilterKeepsAll(books, (b: Book) => true);
      FilterIsSubsequence(books, (b: Book) => true);
    } else {
      var keep := (b: Book) => BookMatches(b, Lower(searchQuery));
      forall b ensures b in Filter(books, keep) <==> b in books && keep(b) {
        FilterMembership(books, keep, b);
      }
      forall b ensures multiset(Filter(books, keep))[b] == if keep(b) then multiset(books)[b] else 0 {
        FilterCount(books, keep, b);
      }
      FilterIsSubsequence(books, keep);
    }
  }

  /** The filter ignores the case of the query: queries that lower-case
      alike show the same books. */
  lemma FilteredBooksIgnoreQueryCase(books: seq<Book>, q1: string, q2: string)
    requires Lower(q1) == Lower(q2)
    ensures FilteredBooks(books, q1) == FilteredBooks(books, q2)
  {
    if q1 != "" {
      assert q2 != "";
      FilterCongruent(books, (b: Book) => BookMatches(b, Lower(q1)), (b: Book) => BookMatches(b, Lower(q2)));
    }
  }

  /** The filter ignores the case of book names: two books that differ only
      in the case of their names are shown or hidden together. */
  lemma FilteredBooksIgnoreNameCase(books: seq<Book>, searchQuery: string, b1: Book, b2: Book)
    requires b1 in books && b2 in books
    requires b1.bookNumber == b2.bookNumber && Lower(b1.bookName) == Lower(b2.bookName)
    ensures b1 in FilteredBooks(books, searchQuery) <==> b2 in FilteredBooks(books, searchQuery)
  {
    FilteredBooksLaws(books, searchQuery);
  }
}
