/** Persistence of the library: one tab-separated line per book and per
    borrower, the loaders that rebuild catalog and borrower list from those
    lines, the password login and the all-or-nothing snapshot load.
    A file is the sequence of its lines; `None` is a file that cannot be
    opened. */
module Snapshot {
  import opened Util
  import opened Books
  import opened Circulation
  import opened Tsv

  function Clamp(x: int, lo: int, hi: int): int
    requires lo <= hi
  {
    if x < lo then lo else if x > hi then hi else x
  }

  // ---------------------------------------------------------------------
  // Books

  /** The line `saveBooksToFile` writes for a book: id, the four escaped
      strings, total and available copies, separated by tabs. */
  function BookLine(b: BookRecord): (l: string)
    ensures var id := IntToString(b.id); |l| > |id| && l[..|id| + 1] == id + [Tab]
  {
    Join([IntToString(b.id), Escape(b.title), Escape(b.author), Escape(b.isbn),
          Escape(b.category), IntToString(b.totalCopies), IntToString(b.availableCopies)])
  }

  /** A saved book never spans two lines of the file. */
  lemma BookLineIsOneLine(b: BookRecord)
    ensures Newline !in BookLine(b)
  {
    IntToStringPlain(b.id);
    IntToStringPlain(b.totalCopies);
    IntToStringPlain(b.availableCopies);
    EscapeRemovesBreaks(b.title);
    EscapeRemovesBreaks(b.author);
    EscapeRemovesBreaks(b.isbn);
    EscapeRemovesBreaks(b.category);
    SevenFieldsOneLine(IntToString(b.id), Escape(b.title), Escape(b.author), Escape(b.isbn),
                       Escape(b.category), IntToString(b.totalCopies), IntToString(b.availableCopies));
  }

  function BookLines(bs: seq<BookRecord>): (lines: seq<string>)
    ensures |lines| == |bs| && forall i :: 0 <= i < |bs| ==> lines[i] == BookLine(bs[i])
  {
    seq(|bs|, i requires 0 <= i < |bs| => BookLine(bs[i]))
  }

  /** The book after `times` calls of `borrowBook`, as the loader replays
      `total - available` borrows on a freshly built book. A borrow on a book
      with no copy left changes nothing. */
  function Replay(b: BookRecord, times: int): (r: BookRecord)
    ensures r.(availableCopies := b.availableCopies) == b
    ensures b.WellFormed() ==> r.WellFormed()
    ensures !b.IsAvailable() ==> r == b
    decreases times
  {
    if times <= 0 then b
    else
      var p := Replay(b, times - 1);
      if p.IsAvailable() then p.TakeCopy() else p
  }

  /** Replaying stops at zero: each borrow takes one copy until none is left. */
  lemma {:induction false} ReplayCount(b: BookRecord, times: int)
    requires b.availableCopies >= 0
    ensures Replay(b, times).availableCopies ==
      if times <= 0 then b.availableCopies else Max(0, b.availableCopies - times)
    decreases times
  {
    if times > 0 {
      ReplayCount(b, times - 1);
    }
  }

  /** The book the loader keeps for a parsed line: built with the stored
      total, then `total - available` borrows replayed. The stored available
      count comes back clamped into `[0, total]`; with a negative total the
      book keeps `available == total`. */
  function LoadedBook(id: int, title: string, author: string, isbn: string, category: string,
                      total: int, available: int): (r: BookRecord)
    ensures r.WellFormed()
    ensures r.(availableCopies := total) == NewRecord(id, title, author, isbn, category, total)
    ensures total >= 0 ==> r.availableCopies == Clamp(available, 0, total)
    ensures total < 0 ==> r.availableCopies == total
  {
    var built := NewRecord(id, title, author, isbn, category, total);
    var r := Replay(built, total - available);
    if total >= 0 then ReplayCount(built, total - available); r else r
  }

  /** The book a split line describes: fewer than seven fields, or an id or
      count that does not parse, gives `None`. */
  function BookFromParts(parts: seq<string>): (r: Option<BookRecord>)
    ensures r.Some? ==> r.value.WellFormed()
    ensures r.Some? <==> |parts| >= 7 && TryParseInt(parts[0]).Some? && TryParseInt(parts[5]).Some? && TryParseInt(parts[6]).Some?
  {
    if |parts| < 7 then None
    else
      var id, total, available := TryParseInt(parts[0]), TryParseInt(parts[5]), TryParseInt(parts[6]);
      if id.None? || total.None? || available.None? then None
      else
        Some(LoadedBook(id.value, Unescape(parts[1]), Unescape(parts[2]), Unescape(parts[3]), Unescape(parts[4]),
                        total.value, available.value))
  }

  /** One line of the book file; empty lines are skipped (`None`). */
  function ParseBookLine(line: string): (r: Option<BookRecord>)
    ensures r.Some? ==> r.value.WellFormed() && line != []
  {
    if line == [] then None else BookFromParts(SplitTsv(line))
  }

  /** The catalog the book loader builds from the lines of a file, in order. */
  function BooksFromLines(lines: seq<string>): (bs: seq<BookRecord>)
    ensures |bs| <= |lines|
  {
    ParseAll(ParseBookLine, lines)
  }

  /** Every book loaded from a file is well formed, whatever the file holds. */
  lemma LoadedBooksWellFormed(lines: seq<string>)
    ensures AllWellFormed(BooksFromLines(lines))
  {
    var bs := BooksFromLines(lines);
    forall k | 0 <= k < |bs| ensures bs[k].WellFormed() {
      ParseAllFrom(ParseBookLine, lines, bs[k]);
    }
  }

  /** A book the file format can carry: no backslash in its strings (the
      escaping leaves backslashes as they are), 32-bit numbers, and
      `0 <= available <= total`. */
  predicate Storable(b: BookRecord) {
    Backslash !in b.title && Backslash !in b.author && Backslash !in b.isbn && Backslash !in b.category &&
    IntMin <= b.id <= IntMax && IntMin <= b.totalCopies <= IntMax && IntMin <= b.availableCopies <= IntMax &&
    b.Sound()
  }

  /** The unescaped fields of a book's line. */
  function BookFields(b: BookRecord): (fields: seq<string>)
    ensures |fields| == 7
  {
    [IntToString(b.id), b.title, b.author, b.isbn, b.category, IntToString(b.totalCopies), IntToString(b.availableCopies)]
  }

  /** The saved line of a storable book splits into its fields. */
  lemma SplitBookLine(b: BookRecord)
    requires Storable(b)
    ensures SplitTsv(BookLine(b)) == BookFields(b)
  {
    IntToStringPlain(b.id);
    IntToStringPlain(b.totalCopies);
    IntToStringPlain(b.availableCopies);
    SplitSevenFields(IntToString(b.id), Escape(b.title), Escape(b.author), Escape(b.isbn),
                     Escape(b.category), IntToString(b.totalCopies), IntToString(b.availableCopies),
                     IntToString(b.id), b.title, b.author, b.isbn,
                     b.category, IntToString(b.totalCopies), IntToString(b.availableCopies));
  }

  /** The fields of a storable book describe that book. */
  lemma BookFromFields(b: BookRecord)
    requires Storable(b)
    ensures BookFromParts(BookFields(b)) == Some(b)
  {
    ParseIntToString(b.id);
    ParseIntToString(b.totalCopies);
    ParseIntToString(b.availableCopies);
    var loaded := LoadedBook(b.id, b.title, b.author, b.isbn, b.category, b.totalCopies, b.availableCopies);
    assert BookFromParts(BookFields(b)) == Some(loaded);
  }

  /** Loading the line saved for a storable book gives that book back. */
  lemma BookLineRoundTrip(b: BookRecord)
    requires Storable(b)
    ensures ParseBookLine(BookLine(b)) == Some(b)
  {
    SplitBookLine(b);
    BookFromFields(b);
    assert BookLine(b) != [];
  }

  /** Saving a catalog of storable books and loading the file gives the
      same catalog, so saving again writes the same lines. */
  lemma BooksRoundTrip(bs: seq<BookRecord>)
    requires forall i :: 0 <= i < |bs| ==> Storable(bs[i])
    ensures BooksFromLines(BookLines(bs)) == bs
    ensures BookLines(BooksFromLines(BookLines(bs))) == BookLines(bs)
  {
    var lines := BookLines(bs);
    forall i | 0 <= i < |bs|
      ensures ParseBookLine(lines[i]) == Some(bs[i])
    {
      BookLineRoundTrip(bs[i]);
    }
    ParseAllOfParsed(ParseBookLine, lines, bs);
  }

  /** The loader's loop that calls `borrowBook` `times` times on a freshly
      built book (no call at all when `times` is not positive). */
  method ReplayBorrows(book: Book, times: int)
    requires book.Valid()
    modifies book`availableCopies, book`isAvailable
    ensures book.Valid() && book.Value() == Replay(old(book.Value()), times)
  {
    ghost var start := book.Value();
    var j := 0;
    while j < times
      invariant 0 <= j && (j <= times || j == 0)
      invariant book.Valid() && book.Value() == Replay(start, j)
    {
      var took := book.BorrowBook();
      j := j + 1;
    }
  }

  /** The body of the book loader's loop for one non-empty line: parse the
      numbers, build a `Book` and call `borrowBook` `total - available`
      times. */
  method BuildBook(parts: seq<string>) returns (r: Option<BookRecord>)
    ensures r == BookFromParts(parts)
  {
    if |parts| < 7 {
      return None;
    }
    var id, total, available := TryParseInt(parts[0]), TryParseInt(parts[5]), TryParseInt(parts[6]);
    if id.None? || total.None? || available.None? {
      return None;
    }
    var title := UnescapeField(parts[1]);
    var author := UnescapeField(parts[2]);
    var isbn := UnescapeField(parts[3]);
    var category := UnescapeField(parts[4]);
    var book := new Book(id.value, title, author, isbn, category, total.value);
    ReplayBorrows(book, total.value - available.value);
    assert book.Value() == LoadedBook(id.value, title, author, isbn, category, total.value, available.value);
    return Some(book.Value());
  }

  /** The body of the loading loop: the book of line `i`, if it parses,
      joins the books of the lines before it. */
  method LoadBookLine(lines: seq<string>, i: nat, loaded: seq<BookRecord>) returns (next: seq<BookRecord>)
    requires i < |lines| && loaded == BooksFromLines(lines[..i])
    ensures next == BooksFromLines(lines[..i + 1])
  {
    ParseAllStep(ParseBookLine, lines, i);
    next := loaded;
    var line := lines[i];
    if line == [] {
      return;
    }
    var parts := SplitTsvFields(line);
    var book := BuildBook(parts);
    if book.Some? {
      next := loaded + [book.value];
    }
  }

  /** `loadBooksFromFile`: the catalog is replaced only when the file can be
      opened; empty lines and lines that do not describe a book are skipped. */
  method LoadBooksFromFile(file: Option<seq<string>>, books: seq<BookRecord>) returns (ok: bool, loaded: seq<BookRecord>)
    ensures ok == file.Some?
    ensures ok ==> loaded == BooksFromLines(file.value)
    ensures !ok ==> loaded == books
  {
    if file.None? {
      return false, books;
    }
    var lines := file.value;
    loaded := [];
    for i := 0 to |lines|
      invariant loaded == BooksFromLines(lines[..i])
    {
      loaded := LoadBookLine(lines, i, loaded);
    }
    assert lines[..|lines|] == lines;
    ok := true;
  }

  // ---------------------------------------------------------------------
  // Borrowers

  /** The line `saveBorrowersToFile` writes: type tag, id, name, department,
      limit and the variant's extra field (major or title). */
  function BorrowerLine(p: BorrowerProfile): (l: string)
    ensures var tag := Escape(p.role.TypeName()); |l| > |tag| && l[..|tag| + 1] == tag + [Tab]
  {
    Join([Escape(p.role.TypeName()), Escape(p.id), Escape(p.name), Escape(p.department),
          IntToString(p.limit), Escape(p.role.Extra())])
  }

  /** A saved borrower never spans two lines of the file. */
  lemma BorrowerLineIsOneLine(p: BorrowerProfile)
    ensures Newline !in BorrowerLine(p)
  {
    IntToStringPlain(p.limit);
    EscapeRemovesBreaks(p.role.TypeName());
    EscapeRemovesBreaks(p.id);
    EscapeRemovesBreaks(p.name);
    EscapeRemovesBreaks(p.department);
    EscapeRemovesBreaks(p.role.Extra());
    SixFieldsOneLine(Escape(p.role.TypeName()), Escape(p.id), Escape(p.name), Escape(p.department),
                     IntToString(p.limit), Escape(p.role.Extra()));
  }

  function ProfilesOf(bs: seq<Borrower>): (ps: seq<BorrowerProfile>)
    reads set b | b in bs
    ensures |ps| == |bs| && forall i :: 0 <= i < |bs| ==> ps[i] == bs[i].Profile()
  {
    if bs == [] then [] else [bs[0].Profile()] + ProfilesOf(bs[1..])
  }

  function BorrowerLines(ps: seq<BorrowerProfile>): (lines: seq<string>)
    ensures |lines| == |ps| && forall i :: 0 <= i < |ps| ==> lines[i] == BorrowerLine(ps[i])
  {
    seq(|ps|, i requires 0 <= i < |ps| => BorrowerLine(ps[i]))
  }

  predicate IsStudentTag(tag: string) { tag == "student" || tag == "学生" }
  predicate IsTeacherTag(tag: string) { tag == "teacher" || tag == "教师" }

  /** `createBorrowerFromParts`: at least six fields, a parsable limit and a
      known type tag (English or Chinese); the sixth field becomes the major
      or the title. */
  function CreateBorrowerFromParts(parts: seq<string>): (r: Option<BorrowerProfile>)
    ensures r.Some? <==> |parts| >= 6 && TryParseInt(parts[4]).Some? && (IsStudentTag(parts[0]) || IsTeacherTag(parts[0]))
    ensures r.Some? ==> r.value.id == parts[1] && r.value.name == parts[2] && r.value.department == parts[3]
    ensures r.Some? ==> r.value.role.Extra() == parts[5] && r.value.limit == TryParseInt(parts[4]).value
    ensures r.Some? ==> (r.value.role.Student? <==> IsStudentTag(parts[0]))
  {
    if |parts| < 6 then None
    else
      var limit := TryParseInt(parts[4]);
      if limit.None? then None
      else if IsStudentTag(parts[0]) then Some(BorrowerProfile(Student(parts[5]), parts[1], parts[2], parts[3], limit.value))
      else if IsTeacherTag(parts[0]) then Some(BorrowerProfile(Teacher(parts[5]), parts[1], parts[2], parts[3], limit.value))
      else None
  }

  /** One line of the user file: split, every field unescaped, then built. */
  function ParseBorrowerLine(line: string): (r: Option<BorrowerProfile>)
    ensures line == [] ==> r.None?
    ensures r.Some? ==> IntMin <= r.value.limit <= IntMax
  {
    if line == [] then None else CreateBorrowerFromParts(UnescapeAll(SplitTsv(line)))
  }

  /** The borrower profiles the user loader builds from the lines of a file,
      in order. */
  function ProfilesFromLines(lines: seq<string>): (ps: seq<BorrowerProfile>)
    ensures |ps| <= |lines|
  {
    ParseAll(ParseBorrowerLine, lines)
  }

  /** A borrower the file format can carry. */
  predicate StorableProfile(p: BorrowerProfile) {
    Backslash !in p.id && Backslash !in p.name && Backslash !in p.department &&
    Backslash !in p.role.Extra() && IntMin <= p.limit <= IntMax
  }

  /** The unescaped fields of a borrower's line. */
  function BorrowerFields(p: BorrowerProfile): (fields: seq<string>)
    ensures |fields| == 6
  {
    [p.role.TypeName(), p.id, p.name, p.department, IntToString(p.limit), p.role.Extra()]
  }

  /** The type tag written for a borrower is read back as the same variant
      and carries no backslash. */
  lemma TypeNamePlain(role: Role)
    ensures Backslash !in role.TypeName()
    ensures IsStudentTag(role.TypeName()) <==> role.Student?
    ensures IsTeacherTag(role.TypeName()) <==> role.Teacher?
  {
    if role.Student? {
      assert role.TypeName() == "学生";
    } else {
      assert role.TypeName() == "教师";
    }
  }

  /** The saved line of a storable borrower splits into its fields. */
  lemma SplitBorrowerLine(p: BorrowerProfile)
    requires StorableProfile(p)
    ensures SplitTsv(BorrowerLine(p)) == BorrowerFields(p)
  {
    TypeNamePlain(p.role);
    IntToStringPlain(p.limit);
    SplitSixFields(Escape(p.role.TypeName()), Escape(p.id), Escape(p.name), Escape(p.department),
                   IntToString(p.limit), Escape(p.role.Extra()),
                   p.role.TypeName(), p.id, p.name, p.department, IntToString(p.limit), p.role.Extra());
  }

  /** Unescaping leaves fields without backslashes as they are. */
  lemma UnescapePlainFields(fields: seq<string>)
    requires forall i :: 0 <= i < |fields| ==> Backslash !in fields[i]
    ensures UnescapeAll(fields) == fields
  {
  }

  /** The fields of a storable borrower describe that borrower, with the
      same variant: the Chinese type tag written on save is accepted on load. */
  lemma ProfileFromFields(p: BorrowerProfile)
    requires StorableProfile(p)
    ensures CreateBorrowerFromParts(BorrowerFields(p)) == Some(p)
  {
    ParseIntToString(p.limit);
    TypeNamePlain(p.role);
  }

  /** The fields of a storable borrower carry no backslash, so unescaping
      leaves them as they are. */
  lemma BorrowerFieldsPlain(p: BorrowerProfile)
    requires StorableProfile(p)
    ensures UnescapeAll(BorrowerFields(p)) == BorrowerFields(p)
  {
    var fields := BorrowerFields(p);
    IntToStringPlain(p.limit);
    TypeNamePlain(p.role);
    UnescapePlainFields(fields);
  }

  /** Loading the line saved for a storable borrower gives it back. */
  lemma BorrowerLineRoundTrip(p: BorrowerProfile)
    requires StorableProfile(p)
    ensures ParseBorrowerLine(BorrowerLine(p)) == Some(p)
  {
    SplitBorrowerLine(p);
    BorrowerFieldsPlain(p);
    ProfileFromFields(p);
    assert BorrowerLine(p) != [];
  }

  /** Saving storable borrowers and loading the file gives the same profiles. */
  lemma BorrowersRoundTrip(ps: seq<BorrowerProfile>)
    requires forall i :: 0 <= i < |ps| ==> StorableProfile(ps[i])
    ensures ProfilesFromLines(BorrowerLines(ps)) == ps
  {
    var lines := BorrowerLines(ps);
    forall i | 0 <= i < |ps|
      ensures ParseBorrowerLine(lines[i]) == Some(ps[i])
    {
      BorrowerLineRoundTrip(ps[i]);
    }
    ParseAllOfParsed(ParseBorrowerLine, lines, ps);
  }

  /** The loop that unescapes every field of a split user line in place. */
  method UnescapeFields(parts: seq<string>) returns (fields: seq<string>)
    ensures fields == UnescapeAll(parts)
  {
    fields := parts;
    for k := 0 to |parts|
      invariant |fields| == |parts|
      invariant forall m :: 0 <= m < k ==> fields[m] == Unescape(parts[m])
      invariant forall m :: k <= m < |parts| ==> fields[m] == parts[m]
    {
      var field := UnescapeField(fields[k]);
      fields := fields[k := field];
    }
  }

  /** The borrowers are built from these profiles, in this order, and hold
      no books and no history. */
  ghost predicate BuiltFrom(loaded: seq<Borrower>, ps: seq<BorrowerProfile>)
    reads set b | b in loaded
  {
    |loaded| == |ps| &&
    forall i :: 0 <= i < |loaded| ==>
      loaded[i].Profile() == ps[i] && loaded[i].Valid() &&
      loaded[i].currentBorrowCount == 0 && loaded[i].borrowedBookIds == [] && loaded[i].borrowHistory == []
  }

  /** The body of the user loader's loop for one line: an empty line is
      skipped; otherwise the fields are split and unescaped and, when they
      describe a borrower, a new borrower holding no books is built. */
  method BuildBorrower(line: string) returns (b: Borrower?)
    ensures b == null <==> ParseBorrowerLine(line).None?
    ensures b != null ==> fresh(b) && b.Profile() == ParseBorrowerLine(line).value
    ensures b != null ==> b.Valid() && b.currentBorrowCount == 0 && b.borrowedBookIds == [] && b.borrowHistory == []
  {
    if line == [] {
      return null;
    }
    var parts := SplitTsvFields(line);
    var fields := UnescapeFields(parts);
    var profile := CreateBorrowerFromParts(fields);
    if profile.None? {
      return null;
    }
    var p := profile.value;
    b := new Borrower(p.id, p.name, p.department, p.role, p.limit);
  }

  /** One more freshly built borrower extends the built list. */
  lemma BuiltFromAppend(loaded: seq<Borrower>, ps: seq<BorrowerProfile>, b: Borrower, p: BorrowerProfile)
    requires BuiltFrom(loaded, ps)
    requires b.Profile() == p && b.Valid()
    requires b.currentBorrowCount == 0 && b.borrowedBookIds == [] && b.borrowHistory == []
    ensures BuiltFrom(loaded + [b], ps + [p])
  {
    var l, q := loaded + [b], ps + [p];
    forall i | 0 <= i < |l|
      ensures l[i].Profile() == q[i] && l[i].Valid()
      ensures l[i].currentBorrowCount == 0 && l[i].borrowedBookIds == [] && l[i].borrowHistory == []
    {
      if i < |loaded| {
        assert l[i] == loaded[i] && q[i] == ps[i];
      }
    }
  }

  /** The body of the loading loop: the borrower of line `i`, if it parses,
      joins the list built from the lines before it. */
  method LoadBorrowerLine(lines: seq<string>, i: nat, loaded: seq<Borrower>) returns (next: seq<Borrower>)
    requires i < |lines| && BuiltFrom(loaded, ProfilesFromLines(lines[..i]))
    ensures BuiltFrom(next, ProfilesFromLines(lines[..i + 1]))
  {
    ParseAllStep(ParseBorrowerLine, lines, i);
    var borrower := BuildBorrower(lines[i]);
    next := loaded;
    if borrower != null {
      BuiltFromAppend(loaded, ProfilesFromLines(lines[..i]), borrower, ParseBorrowerLine(lines[i]).value);
      next := loaded + [borrower];
    }
  }

  /** `loadBorrowersFromFile`: the list is replaced only when the file can be
      opened; every line that parses becomes a new borrower holding no books. */
  method LoadBorrowersFromFile(file: Option<seq<string>>, borrowers: seq<Borrower>) returns (ok: bool, loaded: seq<Borrower>)
    ensures ok == file.Some?
    ensures !ok ==> loaded == borrowers
    ensures ok ==> BuiltFrom(loaded, ProfilesFromLines(file.value))
  {
    if file.None? {
      return false, borrowers;
    }
    var lines := file.value;
    loaded := [];
    for i := 0 to |lines|
      invariant BuiltFrom(loaded, ProfilesFromLines(lines[..i]))
    {
      loaded := LoadBorrowerLine(lines, i, loaded);
    }
    assert lines[..|lines|] == lines;
    ok := true;
  }

  // ---------------------------------------------------------------------
  // Login and the snapshot

  /** The password of a user: the last six bytes of the id's UTF-8 form,
      or all of it when shorter, since `length` and `substr` count bytes. */
  function ExpectedPassword(id: string): (p: seq<byte>)
    ensures |p| == Min(|Utf8(id)|, 6)
    ensures Utf8(id) == Utf8(id)[..|Utf8(id)| - |p|] + p
  {
    var bytes := Utf8(id);
    bytes[Max(0, |bytes| - 6)..]
  }

  /** For an ASCII id the password is the id's last six characters, or the
      whole id when it is shorter. */
  lemma AsciiPassword(id: string)
    requires IsAscii(id)
    ensures ExpectedPassword(id) == Utf8(id[Max(0, |id| - 6)..])
  {
    var k := Max(0, |id| - 6);
    assert id == id[..k] + id[k..];
    Utf8Append(id[..k], id[k..]);
    AsciiUtf8(id[..k]);
    AsciiUtf8(id);
  }

  /** When the six bytes start inside a character, no text has them as its
      UTF-8 form, so that user can never log in. */
  lemma SplitCharacterLocksOut(file: Option<seq<string>>, id: string, password: string)
    requires |Utf8(id)| > 6 && IsContinuation(ExpectedPassword(id)[0])
    ensures LoginProfile(file, id, password).None?
  {
  }

  /** An id of two three-byte characters followed by "01" is eight bytes
      long; its last six start inside the first character. */
  lemma SplitCharacterExample(file: Option<seq<string>>, password: string)
    ensures ExpectedPassword("\U{6559}\U{5E08}01") == [0x99, 0xE5, 0xB8, 0x88, 0x30, 0x31]
    ensures LoginProfile(file, "\U{6559}\U{5E08}01", password).None?
  {
    assert Utf8("\U{6559}\U{5E08}01") == [0xE6, 0x95, 0x99, 0xE5, 0xB8, 0x88, 0x30, 0x31];
    SplitCharacterLocksOut(file, "\U{6559}\U{5E08}01", password);
  }

  /** The ids of the loaded users, in file order. */
  function ProfileIds(ps: seq<BorrowerProfile>): seq<string> {
    Project(ps, (p: BorrowerProfile) => p.id)
  }

  /** The borrower `loginUser` returns: the first one in the user file with
      the given id, provided the password is the id's six-byte suffix. */
  function LoginProfile(file: Option<seq<string>>, id: string, password: string): (r: Option<BorrowerProfile>)
    ensures r.Some? ==> Utf8(password) == ExpectedPassword(id) && r.value.id == id
    ensures r.Some? ==> file.Some? && r.value in ProfilesFromLines(file.value)
    ensures r.Some? ==> var ps := ProfilesFromLines(file.value);
                        r.value == ps[IndexOf(ProfileIds(ps), id)]
    ensures r.None? <==> Utf8(password) != ExpectedPassword(id) || file.None? ||
                         forall p :: p in ProfilesFromLines(file.value) ==> p.id != id
  {
    if Utf8(password) != ExpectedPassword(id) || file.None? then None
    else
      var ps := ProfilesFromLines(file.value);
      var k := IndexOf(ProfileIds(ps), id);
      if k == |ps| then None else Some(ps[k])
  }

  /** `loginUser`: checks the password, loads the users and returns the
      first one whose id matches, or null. */
  method LoginUser(file: Option<seq<string>>, id: string, password: string) returns (user: Borrower?)
    ensures user == null <==> LoginProfile(file, id, password).None?
    ensures user != null ==> user.Profile() == LoginProfile(file, id, password).value
    ensures user != null ==> user.Valid() && user.currentBorrowCount == 0 && user.borrowedBookIds == []
  {
    if Utf8(password) != ExpectedPassword(id) {
      return null;
    }
    var ok, users := LoadBorrowersFromFile(file, []);
    if !ok {
      return null;
    }
    ghost var ps := ProfilesFromLines(file.value);
    var k := 0;
    while k < |users| && users[k].id != id
      invariant 0 <= k <= |users|
      invariant forall j :: 0 <= j < k ==> users[j].id != id
    {
      k := k + 1;
    }
    ghost var idx := IndexOf(ProfileIds(ps), id);
    if k < |users| {
      assert ProfileIds(ps)[k] == id;
      assert idx == k;
      user := users[k];
    } else {
      assert forall p :: p in ps ==> p.id != id;
      user := null;
    }
  }

  /** `loadLibrarySnapshot`: both files are read; only when both could be
      opened are the catalog and the borrower list replaced. The ledger of
      lent ids is never touched. */
  method LoadLibrarySnapshot(library: Library, booksFile: Option<seq<string>>, usersFile: Option<seq<string>>)
    returns (ok: bool)
    requires library.Valid()
    modifies library`books, library`totalBooks, library`availableBooks, library`borrowers
    ensures library.Valid()
    ensures ok == (booksFile.Some? && usersFile.Some?)
    ensures ok ==> library.books == BooksFromLines(booksFile.value)
    ensures ok ==> library.availableBooks == CountAvailable(library.books)
    ensures ok ==> BuiltFrom(library.borrowers, ProfilesFromLines(usersFile.value))
    ensures !ok ==> unchanged(library)
  {
    var booksOk, loadedBooks := LoadBooksFromFile(booksFile, []);
    var usersOk, loadedBorrowers := LoadBorrowersFromFile(usersFile, []);
    if !booksOk || !usersOk {
      return false;
    }
    LoadedBooksWellFormed(booksFile.value);
    library.SetBooks(loadedBooks);
    library.SetBorrowers(loadedBorrowers);
    ok := true;
  }

  /** `saveLibrarySnapshot` followed by `loadLibrarySnapshot`: a library of
      storable books and borrowers gets its catalog and its borrower profiles
      back; held books and histories are not part of the files. */
  method SaveThenLoad(library: Library) returns (ok: bool)
    requires library.Valid()
    requires forall i :: 0 <= i < |library.books| ==> Storable(library.books[i])
    requires forall b :: b in library.borrowers ==> StorableProfile(b.Profile())
    modifies library`books, library`totalBooks, library`availableBooks, library`borrowers
    ensures library.Valid() && ok
    ensures library.books == old(library.books)
    ensures ProfilesOf(library.borrowers) == old(ProfilesOf(library.borrowers))
  {
    var booksFile := BookLines(library.books);
    var usersFile := BorrowerLines(ProfilesOf(library.borrowers));
    BooksRoundTrip(library.books);
    BorrowersRoundTrip(ProfilesOf(library.borrowers));
    ok := LoadLibrarySnapshot(library, Some(booksFile), Some(usersFile));
    assert ProfilesOf(library.borrowers) == ProfilesFromLines(usersFile);
  }
}
