/** The circulation engine: borrowers (students and teachers) and the library
    that owns the catalog, the ledger of lent book ids and the borrower list.
    Borrower and Library refer to each other, so they share this module. */
module Circulation {
  import opened Util
  import opened Books

  /** The history keeps the 20 most recent entries. */
  const HistoryCapacity: nat := 20
  const DefaultStudentLimit: int := 5
  const DefaultTeacherLimit: int := 10

  /** The two borrower variants, each with its own extra field. */
  datatype Role = Student(major: string) | Teacher(title: string)
  {
    /** `getType()`: the tag shown to users and written to the user file. */
    function TypeName(): (r: string)
      ensures Student? <==> r == "学生"
      ensures Teacher? <==> r == "教师"
    {
      if Student? then "学生" else "教师"
    }

    /** The variant's extra field: the major of a student, the title of a teacher. */
    function Extra(): string {
      if Student? then major else title
    }

    /** The limit a borrower gets when none is given. */
    function DefaultLimit(): (r: int)
      ensures 0 < r
      ensures Student? ==> r < DefaultTeacherLimit
    {
      if Student? then DefaultStudentLimit else DefaultTeacherLimit
    }
  }

  /** The persisted part of a borrower: held ids, count and history are not saved. */
  datatype BorrowerProfile = BorrowerProfile(role: Role, id: string, name: string, department: string, limit: int)

  /** The history after `push_front(entry)` and, when the deque grew past the
      capacity, one `pop_back()`. */
  function PushNewest(history: seq<string>, entry: string): (r: seq<string>)
    ensures |r| > 0 && r[0] == entry
    ensures |r| == if |history| < HistoryCapacity then |history| + 1 else |history|
    ensures r[1..] == history[..|r| - 1]
    ensures |history| <= HistoryCapacity ==> |r| <= HistoryCapacity
  {
    var h := [entry] + history;
    if |h| > HistoryCapacity then h[..|h| - 1] else h
  }

  /** A history line: the time stamp, a dash, and the record. */
  function HistoryEntry(stamp: string, record: string): (r: string)
    ensures |r| == |stamp| + 3 + |record|
    ensures r[..|stamp|] == stamp && r[|stamp| + 3..] == record
  {
    stamp + " - " + record
  }

  /** The record of a borrow, which names the book's title. */
  function BorrowRecord(title: string): (r: string)
    ensures |r| == |title| + 4 && r[3..|r| - 1] == title
  {
    "借阅《" + title + "》"
  }

  /** The record of a return, which names the book's title. */
  function ReturnRecord(title: string): (r: string)
    ensures |r| == |title| + 4 && r[3..|r| - 1] == title
  {
    "归还《" + title + "》"
  }

  /** A borrow entry and a return entry are never the same text, and each
      names one title. */
  lemma RecordsDiffer(t1: string, t2: string)
    ensures BorrowRecord(t1) != ReturnRecord(t2)
    ensures BorrowRecord(t1) == BorrowRecord(t2) ==> t1 == t2
    ensures ReturnRecord(t1) == ReturnRecord(t2) ==> t1 == t2
  {
    assert BorrowRecord(t1)[0] != ReturnRecord(t2)[0];
  }

  /** The ids of the catalog, in catalog order. */
  function BookIds(bs: seq<BookRecord>): seq<int> {
    Project(bs, (b: BookRecord) => b.id)
  }

  /** The titles of the catalog, in catalog order. */
  function BookTitles(bs: seq<BookRecord>): seq<string> {
    Project(bs, (b: BookRecord) => b.title)
  }

  /** How many books of the catalog have a copy on the shelf. */
  function CountAvailable(bs: seq<BookRecord>): (n: nat)
    ensures n <= |bs|
    ensures n == 0 <==> forall i :: 0 <= i < |bs| ==> !bs[i].IsAvailable()
  {
    if bs == [] then 0
    else
      var last := bs[|bs| - 1];
      var n := CountAvailable(bs[..|bs| - 1]);
      assert forall i :: 0 <= i < |bs| - 1 ==> bs[..|bs| - 1][i] == bs[i];
      n + (if last.IsAvailable() then 1 else 0)
  }

  /** The count depends only on the availability flags. */
  lemma {:induction false} CountAvailableSameFlags(a: seq<BookRecord>, b: seq<BookRecord>)
    requires |a| == |b|
    requires forall i :: 0 <= i < |a| ==> a[i].IsAvailable() == b[i].IsAvailable()
    ensures CountAvailable(a) == CountAvailable(b)
  {
    if a != [] {
      CountAvailableSameFlags(a[..|a| - 1], b[..|b| - 1]);
    }
  }

  /** Lending a copy of a book that has another copy on the shelf leaves the
      true number of available books unchanged, while `lendBook` lowers its
      cached count by one: the cached statistic drifts. */
  lemma LendDrift(bs: seq<BookRecord>, k: nat)
    requires k < |bs| && bs[k].availableCopies >= 2
    ensures CountAvailable(bs[k := bs[k].TakeCopy()]) == CountAvailable(bs)
  {
    CountAvailableSameFlags(bs, bs[k := bs[k].TakeCopy()]);
  }

  /** Taking a copy changes no id, so every lookup by id finds the same
      position afterwards. */
  lemma TakeKeepsIds(bs: seq<BookRecord>, k: nat)
    requires k < |bs| && bs[k].IsAvailable()
    ensures BookIds(bs[k := bs[k].TakeCopy()]) == BookIds(bs)
  {
    var after := bs[k := bs[k].TakeCopy()];
    assert forall i :: 0 <= i < |bs| ==> BookIds(after)[i] == BookIds(bs)[i];
  }

  /** Position of the first borrower with the given id, `|bs|` when none. */
  function FirstBorrowerWithId(bs: seq<Borrower>, id: string): (k: nat)
    reads set b | b in bs
    ensures k <= |bs|
    ensures k < |bs| ==> bs[k].id == id
    ensures forall j :: 0 <= j < k ==> bs[j].id != id
  {
    if bs == [] then 0
    else if bs[0].id == id then 0
    else 1 + FirstBorrowerWithId(bs[1..], id)
  }

  class Borrower {
    var id: string
    var name: string
    var department: string
    var role: Role
    var maxBorrowLimit: int
    var currentBorrowCount: int
    var borrowedBookIds: seq<int>
    var borrowHistory: seq<string>

    /** Kept by every operation: the history never exceeds its capacity. */
    ghost predicate Valid()
      reads this
    {
      |borrowHistory| <= HistoryCapacity
    }

    /** Kept by the borrow and return flows, not by the unchecked helpers:
        the count matches the held ids, stays within the limit, and no id is
        held twice. */
    ghost predicate Consistent()
      reads this
    {
      currentBorrowCount == |borrowedBookIds| <= maxBorrowLimit && NoDuplicates(borrowedBookIds)
    }

    function Profile(): BorrowerProfile
      reads this
    {
      BorrowerProfile(role, id, name, department, maxBorrowLimit)
    }

    constructor (id: string, name: string, department: string, role: Role, limit: int)
      ensures Valid() && (Consistent() <==> limit >= 0)
      ensures Profile() == BorrowerProfile(role, id, name, department, limit)
      ensures currentBorrowCount == 0 && borrowedBookIds == [] && borrowHistory == []
    {
      this.id, this.name, this.department, this.role := id, name, department, role;
      maxBorrowLimit, currentBorrowCount := limit, 0;
      borrowedBookIds, borrowHistory := [], [];
    }

    /** `Student(id, name, dept, major)` / `Teacher(id, name, dept, title)`
        without a limit: 5 for students, 10 for teachers. */
    constructor WithDefaultLimit(id: string, name: string, department: string, role: Role)
      ensures Valid() && Consistent()
      ensures Profile() == BorrowerProfile(role, id, name, department, role.DefaultLimit())
      ensures maxBorrowLimit == if role.Student? then 5 else 10
      ensures currentBorrowCount == 0 && borrowedBookIds == [] && borrowHistory == []
    {
      this.id, this.name, this.department, this.role := id, name, department, role;
      maxBorrowLimit, currentBorrowCount := role.DefaultLimit(), 0;
      borrowedBookIds, borrowHistory := [], [];
    }

    /** The limit check of `borrowBook`; for a consistent borrower it
        compares the number of held books with the limit. */
    predicate CanBorrowMore()
      reads this
      ensures Consistent() ==> (CanBorrowMore() <==> |borrowedBookIds| < maxBorrowLimit)
    {
      currentBorrowCount < maxBorrowLimit
    }

    /** Whether the id is held; appending an id that is not keeps the held
        ids free of duplicates. */
    predicate HasBorrowedBook(bookId: int)
      reads this
      ensures HasBorrowedBook(bookId) <==> IndexOf(borrowedBookIds, bookId) < |borrowedBookIds|
      ensures NoDuplicates(borrowedBookIds) && !HasBorrowedBook(bookId) ==>
                NoDuplicates(borrowedBookIds + [bookId])
    {
      bookId in borrowedBookIds
    }

    method SetId(newId: string)
      modifies this`id
      ensures id == newId
    {
      id := newId;
    }

    method SetName(newName: string)
      modifies this`name
      ensures name == newName
    {
      name := newName;
    }

    method SetDepartment(newDepartment: string)
      modifies this`department
      ensures department == newDepartment
    {
      department := newDepartment;
    }

    method SetMaxBorrowLimit(limit: int)
      modifies this`maxBorrowLimit
      ensures maxBorrowLimit == limit
    {
      maxBorrowLimit := limit;
    }

    /** Unchecked: neither the limit nor duplicates are looked at. */
    method AddBorrowedBookId(bookId: int)
      modifies this`borrowedBookIds
      ensures borrowedBookIds == old(borrowedBookIds) + [bookId]
    {
      borrowedBookIds := borrowedBookIds + [bookId];
    }

    /** Unchecked: the count may pass the limit or the number of held ids. */
    method IncrementBorrowCount()
      modifies this`currentBorrowCount
      ensures currentBorrowCount == old(currentBorrowCount) + 1
    {
      currentBorrowCount := currentBorrowCount + 1;
    }

    /** Never takes the count below zero: at zero it does nothing. */
    method DecrementBorrowCount()
      modifies this`currentBorrowCount
      ensures old(currentBorrowCount) > 0 ==> currentBorrowCount == old(currentBorrowCount) - 1
      ensures old(currentBorrowCount) <= 0 ==> currentBorrowCount == old(currentBorrowCount)
      ensures old(currentBorrowCount) >= 0 ==> currentBorrowCount >= 0
    {
      if currentBorrowCount > 0 {
        currentBorrowCount := currentBorrowCount - 1;
      }
    }

    /** Puts a stamped entry in front; past the capacity the oldest one goes. */
    method AddToBorrowHistory(stamp: string, record: string)
      requires Valid()
      modifies this`borrowHistory
      ensures Valid()
      ensures borrowHistory == PushNewest(old(borrowHistory), HistoryEntry(stamp, record))
    {
      borrowHistory := [HistoryEntry(stamp, record)] + borrowHistory;
      if |borrowHistory| > HistoryCapacity {
        borrowHistory := borrowHistory[..|borrowHistory| - 1];
      }
    }

    /** Checks the limit, then that the id is not held, then that the book
        exists and is available; only when the library then lends the book
        does the borrower record it. Any refusal changes nothing. */
    method BorrowBookFromLibrary(library: Library, bookId: int, stamp: string) returns (ok: bool)
      requires library.Valid() && Valid()
      modifies this`borrowedBookIds, this`currentBorrowCount, this`borrowHistory
      modifies library`books, library`borrowedBookIds, library`availableBooks
      ensures library.Valid() && Valid()
      ensures ok == (old(CanBorrowMore()) && !old(HasBorrowedBook(bookId)) && old(library.CanLend(bookId)))
      ensures ok ==>
        var k := old(library.FindBookById(bookId)).value;
        && library.books == old(library.books)[k := old(library.books[k]).TakeCopy()]
        && library.borrowedBookIds == old(library.borrowedBookIds) + [bookId]
        && library.availableBooks == old(library.availableBooks) - 1
        && borrowedBookIds == old(borrowedBookIds) + [bookId]
        && currentBorrowCount == old(currentBorrowCount) + 1
        && borrowHistory == PushNewest(old(borrowHistory), HistoryEntry(stamp, BorrowRecord(library.books[k].title)))
      ensures !ok ==> unchanged(this) && unchanged(library)
      ensures old(Consistent()) ==> Consistent()
    {
      if !CanBorrowMore() {
        return false;
      }
      if HasBorrowedBook(bookId) {
        return false;
      }
      var k := library.FindBookById(bookId);
      if k.None? {
        return false;
      }
      if !library.books[k.value].IsAvailable() {
        return false;
      }
      ok := library.LendBook(bookId);
      if ok {
        borrowedBookIds := borrowedBookIds + [bookId];
        currentBorrowCount := currentBorrowCount + 1;
        AddToBorrowHistory(stamp, BorrowRecord(library.books[k.value].title));
      }
    }

    /** Checks that the id is held and the book exists; only when the library
        takes the copy back does the borrower drop the id. Any refusal changes
        nothing. */
    method ReturnBookToLibrary(library: Library, bookId: int, stamp: string) returns (ok: bool)
      requires library.Valid() && Valid()
      modifies this`borrowedBookIds, this`currentBorrowCount, this`borrowHistory
      modifies library`books, library`borrowedBookIds, library`totalBooks, library`availableBooks
      ensures library.Valid() && Valid()
      ensures ok == (old(HasBorrowedBook(bookId)) && old(library.CanReceive(bookId)))
      ensures ok ==>
        var k := old(library.FindBookById(bookId)).value;
        && library.books == old(library.books)[k := old(library.books[k]).PutBackCopy()]
        && library.borrowedBookIds == RemoveFirst(old(library.borrowedBookIds), bookId)
        && library.availableBooks == CountAvailable(library.books)
        && borrowedBookIds == RemoveFirst(old(borrowedBookIds), bookId)
        && currentBorrowCount == old(currentBorrowCount) - 1
        && borrowHistory == PushNewest(old(borrowHistory), HistoryEntry(stamp, ReturnRecord(library.books[k].title)))
      ensures !ok ==> unchanged(this) && unchanged(library)
      ensures old(Consistent()) ==> Consistent()
    {
      if !HasBorrowedBook(bookId) {
        return false;
      }
      var k := library.FindBookById(bookId);
      if k.None? {
        return false;
      }
      ok := library.ReceiveBook(bookId);
      if ok {
        // The id is held, so the search for it always succeeds.
        if Consistent() {
          RemoveFirstNoDuplicates(borrowedBookIds, bookId);
        }
        borrowedBookIds := RemoveFirst(borrowedBookIds, bookId);
        currentBorrowCount := currentBorrowCount - 1;
        AddToBorrowHistory(stamp, ReturnRecord(library.books[k.value].title));
      }
    }
  }

  class Library {
    var libraryName: string
    var location: string
    var books: seq<BookRecord>
    var borrowedBookIds: seq<int>
    var borrowers: seq<Borrower>
    var totalBooks: int
    var availableBooks: int

    /** What every operation keeps. The cached `availableBooks` is not part
        of it: `LendBook` lowers it instead of recounting. */
    ghost predicate Valid()
      reads this
    {
      totalBooks == |books| && NoDuplicates(borrowedBookIds) && AllWellFormed(books)
    }

    constructor Default()
      ensures Valid()
      ensures libraryName == "默认图书馆" && location == "未知位置"
      ensures books == [] && borrowedBookIds == [] && borrowers == []
      ensures totalBooks == 0 && availableBooks == 0
    {
      libraryName, location := "默认图书馆", "未知位置";
      books, borrowedBookIds, borrowers := [], [], [];
      totalBooks, availableBooks := 0, 0;
    }

    constructor (name: string, location: string)
      ensures Valid()
      ensures libraryName == name && this.location == location
      ensures books == [] && borrowedBookIds == [] && borrowers == []
      ensures totalBooks == 0 && availableBooks == 0
    {
      libraryName, this.location := name, location;
      books, borrowedBookIds, borrowers := [], [], [];
      totalBooks, availableBooks := 0, 0;
    }

    /** The position of the first book with this id (where the returned
        pointer points), or None for a null pointer. */
    function FindBookById(bookId: int): (r: Option<nat>)
      reads this
      ensures r.Some? ==> r.value < |books| && books[r.value].id == bookId
      ensures r.Some? ==> forall j :: 0 <= j < r.value ==> books[j].id != bookId
      ensures r.None? <==> forall j :: 0 <= j < |books| ==> books[j].id != bookId
    {
      var k := IndexOf(BookIds(books), bookId);
      if k < |books| then Some(k) else None
    }

    /** The position of the first book with exactly this title, or None. */
    function FindBookByTitle(title: string): (r: Option<nat>)
      reads this
      ensures r.Some? ==> r.value < |books| && books[r.value].title == title
      ensures r.Some? ==> forall j :: 0 <= j < r.value ==> books[j].title != title
      ensures r.None? <==> forall j :: 0 <= j < |books| ==> books[j].title != title
    {
      var k := IndexOf(BookTitles(books), title);
      if k < |books| then Some(k) else None
    }

    /** The positions of all books of the category, in catalog order. */
    method FindBooksByCategory(category: string) returns (hits: seq<nat>)
      ensures forall i :: 0 <= i < |hits| ==> hits[i] < |books| && books[hits[i]].category == category
      ensures forall i, j :: 0 <= i < j < |hits| ==> hits[i] < hits[j]
      ensures forall j :: 0 <= j < |books| && books[j].category == category ==> j in hits
    {
      hits := [];
      for i := 0 to |books|
        invariant forall h :: 0 <= h < |hits| ==> hits[h] < i && books[hits[h]].category == category
        invariant forall h, h' :: 0 <= h < h' < |hits| ==> hits[h] < hits[h']
        invariant forall j :: 0 <= j < i && books[j].category == category ==> j in hits
      {
        if books[i].category == category {
          hits := hits + [i];
        }
      }
    }

    /** The positions of all books by the author, in catalog order. */
    method FindBooksByAuthor(author: string) returns (hits: seq<nat>)
      ensures forall i :: 0 <= i < |hits| ==> hits[i] < |books| && books[hits[i]].author == author
      ensures forall i, j :: 0 <= i < j < |hits| ==> hits[i] < hits[j]
      ensures forall j :: 0 <= j < |books| && books[j].author == author ==> j in hits
    {
      hits := [];
      for i := 0 to |books|
        invariant forall h :: 0 <= h < |hits| ==> hits[h] < i && books[hits[h]].author == author
        invariant forall h, h' :: 0 <= h < h' < |hits| ==> hits[h] < hits[h']
        invariant forall j :: 0 <= j < i && books[j].author == author ==> j in hits
      {
        if books[i].author == author {
          hits := hits + [i];
        }
      }
    }

    /** When `lendBook` succeeds: the book is listed, has a copy on the
        shelf, and its id is not already in the ledger. */
    predicate CanLend(bookId: int)
      reads this
      ensures CanLend(bookId) <==> IsBookAvailable(bookId) && bookId !in borrowedBookIds
    {
      var k := FindBookById(bookId);
      k.Some? && books[k.value].IsAvailable() && bookId !in borrowedBookIds
    }

    /** When `receiveBook` succeeds: the book is listed, its id is in the
        ledger, and not all of its copies are in. */
    predicate CanReceive(bookId: int)
      reads this
      ensures CanReceive(bookId) ==> !CanLend(bookId)
      ensures CanReceive(bookId) ==> exists i :: 0 <= i < |books| && books[i].id == bookId &&
                                                books[i].availableCopies < books[i].totalCopies
    {
      var k := FindBookById(bookId);
      k.Some? && bookId in borrowedBookIds && books[k.value].availableCopies < books[k.value].totalCopies
    }

    /** Whether the first book with this id has a copy on the shelf. */
    function IsBookAvailable(bookId: int): (r: bool)
      reads this
      ensures r <==> exists i :: 0 <= i < |books| && books[i].id == bookId && books[i].IsAvailable()
                                 && forall j :: 0 <= j < i ==> books[j].id != bookId
    {
      var k := FindBookById(bookId);
      k.Some? && books[k.value].IsAvailable()
    }

    /** Recomputes both cached statistics. */
    method UpdateStatistics()
      modifies this`totalBooks, this`availableBooks
      ensures totalBooks == |books| && availableBooks == CountAvailable(books)
    {
      totalBooks := |books|;
      availableBooks := 0;
      for i := 0 to |books|
        invariant totalBooks == |books|
        invariant availableBooks == CountAvailable(books[..i])
      {
        assert books[..i + 1][..i] == books[..i];
        if books[i].IsAvailable() {
          availableBooks := availableBooks + 1;
        }
      }
      assert books[..|books|] == books;
    }

    /** Appends without checking that the id is new. */
    method AddBook(book: BookRecord)
      requires Valid() && book.WellFormed()
      modifies this`books, this`totalBooks, this`availableBooks
      ensures Valid()
      ensures books == old(books) + [book]
      ensures availableBooks == CountAvailable(books)
    {
      books := books + [book];
      UpdateStatistics();
    }

    /** Erases the first book with the id; the ledger is left as it was. */
    method RemoveBook(bookId: int) returns (removed: bool)
      requires Valid()
      modifies this`books, this`totalBooks, this`availableBooks
      ensures Valid()
      ensures removed == old(FindBookById(bookId)).Some?
      ensures removed ==>
        var k := old(FindBookById(bookId)).value;
        books == old(books[..k] + books[k + 1..]) && availableBooks == CountAvailable(books)
      ensures !removed ==> unchanged(this)
    {
      var k := FindBookById(bookId);
      if k.Some? {
        books := books[..k.value] + books[k.value + 1..];
        UpdateStatistics();
        return true;
      }
      return false;
    }

    /** Lends one copy: the book must be listed and available and its id
        not yet in the ledger. The cached count of available books is
        lowered by one rather than recomputed. */
    method LendBook(bookId: int) returns (ok: bool)
      requires Valid()
      modifies this`books, this`borrowedBookIds, this`availableBooks
      ensures Valid()
      ensures ok == old(CanLend(bookId))
      ensures ok ==>
        var k := old(FindBookById(bookId)).value;
        && books == old(books)[k := old(books[k]).TakeCopy()]
        && borrowedBookIds == old(borrowedBookIds) + [bookId]
        && availableBooks == old(availableBooks) - 1
      ensures !ok ==> unchanged(this)
    {
      var k := FindBookById(bookId);
      if k.Some? && books[k.value].IsAvailable() && bookId !in borrowedBookIds {
        // The book has a copy on the shelf, so its borrowBook succeeds.
        books := books[k.value := books[k.value].TakeCopy()];
        borrowedBookIds := borrowedBookIds + [bookId];
        availableBooks := availableBooks - 1;
        return true;
      }
      return false;
    }

    /** Takes a copy back: the book must be listed, its id in the ledger,
        and its returnBook must succeed; then the ledger entry goes and the
        statistics are recomputed. */
    method ReceiveBook(bookId: int) returns (ok: bool)
      requires Valid()
      modifies this`books, this`borrowedBookIds, this`totalBooks, this`availableBooks
      ensures Valid()
      ensures ok == old(CanReceive(bookId))
      ensures ok ==>
        var k := old(FindBookById(bookId)).value;
        && books == old(books)[k := old(books[k]).PutBackCopy()]
        && borrowedBookIds == RemoveFirst(old(borrowedBookIds), bookId)
        && bookId !in borrowedBookIds
        && availableBooks == CountAvailable(books)
      ensures !ok ==> unchanged(this)
    {
      var k := FindBookById(bookId);
      if k.Some? {
        var j := IndexOf(borrowedBookIds, bookId);
        if j < |borrowedBookIds| {
          if books[k.value].availableCopies < books[k.value].totalCopies {
            books := books[k.value := books[k.value].PutBackCopy()];
            RemoveFirstNoDuplicates(borrowedBookIds, bookId);
            borrowedBookIds := RemoveFirst(borrowedBookIds, bookId);
            UpdateStatistics();
            return true;
          }
        }
      }
      return false;
    }

    /** Replaces the catalog and recomputes the statistics; the ledger stays. */
    method SetBooks(newBooks: seq<BookRecord>)
      requires Valid() && AllWellFormed(newBooks)
      modifies this`books, this`totalBooks, this`availableBooks
      ensures Valid()
      ensures books == newBooks && availableBooks == CountAvailable(books)
    {
      books := newBooks;
      UpdateStatistics();
    }

    /** Replaces the borrower list wholesale (the old borrowers are dropped). */
    method SetBorrowers(newBorrowers: seq<Borrower>)
      modifies this`borrowers
      ensures borrowers == newBorrowers
    {
      borrowers := newBorrowers;
    }

    /** The first borrower with this id, or null. */
    function FindBorrowerById(borrowerId: string): (r: Borrower?)
      reads this, set b | b in borrowers
      ensures r != null ==> r in borrowers && r.id == borrowerId
      ensures r != null ==> r == borrowers[FirstBorrowerWithId(borrowers, borrowerId)]
      ensures r == null <==> forall j :: 0 <= j < |borrowers| ==> borrowers[j].id != borrowerId
    {
      var k := FirstBorrowerWithId(borrowers, borrowerId);
      if k < |borrowers| then borrowers[k] else null
    }

    /** Registers the borrower unless one with the same id is present. */
    method AddBorrower(borrower: Borrower)
      modifies this`borrowers
      ensures old(FindBorrowerById(borrower.id)) == null ==> borrowers == old(borrowers) + [borrower]
      ensures old(FindBorrowerById(borrower.id)) != null ==> borrowers == old(borrowers)
    {
      if FindBorrowerById(borrower.id) == null {
        borrowers := borrowers + [borrower];
      }
    }

    /** Drops the first borrower with this id; the ledger is left as it was,
        so ids that borrower held stay marked as lent. */
    method RemoveBorrower(borrowerId: string)
      modifies this`borrowers
      ensures
        var k := old(FirstBorrowerWithId(borrowers, borrowerId));
        borrowers == if k < |old(borrowers)| then old(borrowers[..k] + borrowers[k + 1..]) else old(borrowers)
    {
      var k := FirstBorrowerWithId(borrowers, borrowerId);
      if k < |borrowers| {
        borrowers := borrowers[..k] + borrowers[k + 1..];
      }
    }
  }

  /** The scenario of the library's own test: a borrow that succeeds followed
      by a return of the same book restores the catalog, the ledger, the
      borrower's held ids and count. */
  method BorrowThenReturn(library: Library, borrower: Borrower, bookId: int, stamp1: string, stamp2: string)
    returns (borrowed: bool, returned: bool)
    requires library.Valid() && borrower.Valid()
    modifies borrower`borrowedBookIds, borrower`currentBorrowCount, borrower`borrowHistory
    modifies library`books, library`borrowedBookIds, library`totalBooks, library`availableBooks
    ensures library.Valid() && borrower.Valid()
    ensures borrowed ==> returned
    ensures borrowed ==> library.books == old(library.books) && library.borrowedBookIds == old(library.borrowedBookIds)
    ensures borrowed ==> borrower.borrowedBookIds == old(borrower.borrowedBookIds)
    ensures borrowed ==> borrower.currentBorrowCount == old(borrower.currentBorrowCount)
  {
    ghost var books0, ledger0 := library.books, library.borrowedBookIds;
    ghost var held0 := borrower.borrowedBookIds;
    ghost var found := library.FindBookById(bookId);
    borrowed := borrower.BorrowBookFromLibrary(library, bookId, stamp1);
    returned := false;
    if borrowed {
      ghost var k := found.value;
      assert library.FindBookById(bookId) == found && library.CanReceive(bookId) by {
        TakeKeepsIds(books0, k);
        TakeThenPutBack(books0[k]);
      }
      returned := borrower.ReturnBookToLibrary(library, bookId, stamp2);
      assert library.books == books0 by {
        TakeThenPutBack(books0[k]);
      }
      assert library.borrowedBookIds == ledger0 by {
        RemoveFirstOfAppended(ledger0, bookId);
      }
      assert borrower.borrowedBookIds == held0 by {
        RemoveFirstOfAppended(held0, bookId);
      }
    }
  }
}
