/** A catalog book: its identity, descriptive strings and copy counts.
    `Book` is the object whose `BorrowBook` / `ReturnBook` update its fields in
    place; `BookRecord` is its value, which is what the catalog's
    `std::vector<Book>` holds (a copy of a book is a copy of its whole state). */
module Books {

  /** The state of one book. The `isAvailable` flag of the object is always
      recomputed from `availableCopies`, so the value form derives it. */
  datatype BookRecord = BookRecord(
    id: int,
    title: string,
    author: string,
    isbn: string,
    category: string,
    totalCopies: int,
    availableCopies: int)
  {
    predicate IsAvailable() { availableCopies > 0 }

    /** Holds of every book there can be: the constructor sets both counts
        equal and only a guarded return ever raises the available count. */
    predicate WellFormed() { availableCopies <= totalCopies }

    /** The copy-count invariant, which holds once the book was built with a
        non-negative number of copies. */
    predicate Sound() { 0 <= availableCopies <= totalCopies }

    /** The effect of a successful `borrowBook`. */
    function TakeCopy(): (r: BookRecord)
      requires IsAvailable()
      ensures r.availableCopies == availableCopies - 1
      ensures r.(availableCopies := availableCopies) == this
      ensures WellFormed() ==> r.WellFormed()
      ensures Sound() ==> r.Sound()
    {
      this.(availableCopies := availableCopies - 1)
    }

    /** The effect of a successful `returnBook`. */
    function PutBackCopy(): (r: BookRecord)
      requires availableCopies < totalCopies
      ensures r.availableCopies == availableCopies + 1
      ensures r.(availableCopies := availableCopies) == this
      ensures r.IsAvailable() <==> availableCopies >= 0
      ensures r.WellFormed()
      ensures Sound() ==> r.Sound()
    {
      this.(availableCopies := availableCopies + 1)
    }
  }

  /** Every record of the sequence is well formed. */
  predicate AllWellFormed(bs: seq<BookRecord>) {
    forall i :: 0 <= i < |bs| ==> bs[i].WellFormed()
  }

  /** The state `Book(id, title, author, isbn, category, copies)` builds. */
  function NewRecord(id: int, title: string, author: string, isbn: string, category: string, copies: int): (r: BookRecord)
    ensures r.WellFormed()
    ensures r.availableCopies == r.totalCopies == copies
    ensures r.IsAvailable() <==> copies > 0
    ensures copies >= 0 ==> r.Sound()
  {
    BookRecord(id, title, author, isbn, category, copies, copies)
  }

  /** A successful borrow followed by a return restores the book exactly,
      and borrowing the last copy leaves the book unavailable. */
  lemma TakeThenPutBack(b: BookRecord)
    requires b.IsAvailable() && b.WellFormed()
    ensures b.TakeCopy().availableCopies < b.TakeCopy().totalCopies
    ensures b.TakeCopy().PutBackCopy() == b
    ensures b.availableCopies == 1 ==> !b.TakeCopy().IsAvailable()
  {
  }

  class Book {
    var bookId: int
    var title: string
    var author: string
    var isbn: string
    var category: string
    var totalCopies: int
    var availableCopies: int
    var isAvailable: bool

    /** The object invariant: the flag mirrors the count, and no more copies
        are available than exist. */
    ghost predicate Valid()
      reads this
    {
      isAvailable == (availableCopies > 0) && availableCopies <= totalCopies
    }

    /** The value of this book, as the catalog copies it and as its getters
        report it: a valid object gives a well-formed record whose
        availability is the object's flag. */
    function Value(): (r: BookRecord)
      reads this
      ensures Valid() ==> r.WellFormed() && (r.IsAvailable() <==> isAvailable)
      ensures Valid() && availableCopies >= 0 ==> r.Sound()
    {
      BookRecord(bookId, title, author, isbn, category, totalCopies, availableCopies)
    }

    /** `Book()`: everything empty or zero, not available. */
    constructor Empty()
      ensures Valid() && !isAvailable
      ensures Value() == BookRecord(0, "", "", "", "", 0, 0)
    {
      bookId, title, author, isbn, category := 0, "", "", "", "";
      totalCopies, availableCopies, isAvailable := 0, 0, false;
    }

    constructor (id: int, title: string, author: string, isbn: string, category: string, copies: int)
      ensures Valid()
      ensures Value() == NewRecord(id, title, author, isbn, category, copies)
      ensures isAvailable == (copies > 0)
    {
      this.bookId, this.title, this.author, this.isbn, this.category := id, title, author, isbn, category;
      this.totalCopies, this.availableCopies := copies, copies;
      new;
      UpdateAvailability();
    }

    /** Takes one copy if there is one; otherwise changes nothing. */
    method BorrowBook() returns (ok: bool)
      requires Valid()
      modifies this`availableCopies, this`isAvailable
      ensures Valid()
      ensures ok == old(Value()).IsAvailable()
      ensures Value() == if ok then old(Value()).TakeCopy() else old(Value())
      ensures old(Value()).Sound() ==> Value().Sound()
    {
      if availableCopies > 0 {
        availableCopies := availableCopies - 1;
        UpdateAvailability();
        return true;
      }
      return false;
    }

    /** Puts one copy back unless all copies are already in; otherwise
        changes nothing. */
    method ReturnBook() returns (ok: bool)
      requires Valid()
      modifies this`availableCopies, this`isAvailable
      ensures Valid()
      ensures ok == (old(availableCopies) < old(totalCopies))
      ensures Value() == if ok then old(Value()).PutBackCopy() else old(Value())
      ensures old(Value()).Sound() ==> Value().Sound()
    {
      if availableCopies < totalCopies {
        availableCopies := availableCopies + 1;
        UpdateAvailability();
        return true;
      }
      return false;
    }

    method UpdateAvailability()
      modifies this`isAvailable
      ensures isAvailable == (availableCopies > 0)
    {
      isAvailable := availableCopies > 0;
    }
  }
}
