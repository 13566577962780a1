# Library management core, in Dafny

A model of the circulation engine of a small C++ library-management system,
with its tab-separated file codec and two ranking routines.

- **Books** (`book.dfy`). `Books.Book` is the object whose `BorrowBook` and
  `ReturnBook` take and put back one copy in place. The invariant is that the
  availability flag mirrors the count and that no more copies are available
  than exist. `Books.BookRecord` is the value the catalog's `std::vector<Book>`
  holds. `TakeCopy` and `PutBackCopy` are its two transitions, and the object
  methods are specified by them.
- **Borrowers and the library** (`circulation.dfy`). `Circulation.Borrower` is
  a class, because the library keeps pointers to borrowers and the borrow and
  return flows update their fields in place. A `Role` field holds the
  student/teacher variant, with the variant's extra field and default limit.
  `Circulation.Library` holds:
  - the catalog;
  - the ledger of lent book ids;
  - the borrower list;
  - the two cached statistics.

  Three quirks are kept as the code has them:
  - `LendBook` refuses an id that is already in the ledger, so only one copy
    of a book can be out through it;
  - `LendBook` lowers the cached available count instead of recounting;
  - removing a book or a borrower, or replacing the catalog, leaves the
    ledger alone.
- **Codec** (`tsv.dfy`). The codec covers:
  - field escaping and unescaping;
  - the line splitter;
  - `tryParseInt` over 32-bit integers;
  - the decimal form that `operator<<` writes.

  Each is a function, and the index loops of the source are methods verified
  against it. Backslashes are not escaped, and the consequences are proved as
  lemmas: a field ending in a backslash swallows the next separator, and a
  trailing backslash is dropped.
- **Files** (`snapshot.dfy`). A file is `Option<seq<string>>`, where `None`
  means the file cannot be opened, and saving produces its lines. The model
  covers:
  - the book and user record formats;
  - the line loaders, including the skip rules and the replay of `borrowBook`
    that restores the available count;
  - `loginUser`'s password rule, over the bytes of the id's UTF-8 form;
  - the all-or-nothing snapshot load.

  Round trips are proved for books and borrowers that the format can carry.
- **Recommendations** (`recommendation.dfy`, `ranking.dfy`).
  - The command-line service keeps a borrow frequency table and the per-category
    lists, and returns the most borrowed ids.
  - The graphical controller scores every book, sorts by score, and offers the
    available books first. Its borrow counts are an input map.
- `util.dfy` holds shared sequence helpers: `std::find`/`erase` on
  sequences, duplicates, and a generic line loader.

## Model

| member | source | states |
|---|---|---|
| Books.NewRecord | Book.cpp:6-11 | a new book has total and available copies both equal to `copies`; it is available iff `copies > 0`; it is well formed, and sound when `copies >= 0` |
| Books.TakeCopy | Book.cpp:13-20 | a successful borrow lowers the available count by exactly one and changes no other field; it keeps `available <= total` and `0 <= available <= total` |
| Books.PutBackCopy | Book.cpp:22-29 | a successful return raises the available count by exactly one and changes no other field; the result is well formed and is available when the count was non-negative |
| Books.TakeThenPutBack | Book.cpp:13-29 | a borrow followed by a return restores the book exactly; the return is then always allowed; borrowing the last copy makes the book unavailable |
| Books.Book.Value | Book.h:24-31 | the record the getters report: for a valid object it is well formed, its availability is the object's flag, and it is sound when the available count is non-negative |
| Books.Book.Empty | Book.cpp:3-4 | the default book is empty, zero and not available |
| Books.Book.constructor | Book.cpp:6-11 | the object holds `NewRecord`'s state and its flag is `copies > 0` |
| Books.Book.BorrowBook | Book.cpp:13-20 | succeeds iff a copy is available; on success the state is `TakeCopy` of the old one, otherwise nothing changes; the flag invariant and soundness are kept |
| Books.Book.ReturnBook | Book.cpp:22-29 | succeeds iff `available < total`; on success the state is `PutBackCopy` of the old one, otherwise nothing changes; the invariant and soundness are kept |
| Books.Book.UpdateAvailability | Book.cpp:47-49 | the flag becomes `available > 0` |
| Circulation.PushNewest | Borrower.cpp:137-151 | the new entry comes first and the older entries follow in order; the history grows by one until it holds 20 entries, and then the oldest entry is dropped; it never exceeds 20 |
| Circulation.HistoryEntry | Borrower.cpp:145 | a history entry is the stamp, the three characters " - ", then the record, and both parts can be read back |
| Circulation.BorrowRecord | Borrower.cpp:42 | the borrow record wraps the title in the borrow prefix and closing mark; the title can be read back |
| Circulation.ReturnRecord | Borrower.cpp:78 | the return record wraps the title in the return prefix and closing mark; the title can be read back |
| Circulation.RecordsDiffer | Borrower.cpp:42 | a borrow record never equals a return record (line 78), and each names exactly one title |
| Circulation.CountAvailable | Library.cpp:226-234 | the number of books with a copy on the shelf is at most the catalog size, and it is zero iff no book is available |
| Circulation.CountAvailableSameFlags | Library.cpp:226-234 | the count depends only on the availability flags |
| Circulation.LendDrift | Library.cpp:76-77 | lending a book that has a second copy leaves the true available count unchanged, although `lendBook` lowers the cached one |
| Circulation.TakeKeepsIds | Library.cpp:32-37 | a lend changes no id, so a lookup by id finds the same position afterwards |
| Circulation.FirstBorrowerWithId | Library.cpp:270-275 | the position of the first borrower with the id, or the list length when there is none |
| Circulation.Role.TypeName | Student.h:18 | the tag is the Chinese word for student exactly for students and the word for teacher exactly for teachers (Teacher.h:17) |
| Circulation.Role.DefaultLimit | Student.h:13-14 | the default limit is positive, and a student's is below a teacher's (Teacher.h:12-13) |
| Circulation.Borrower.constructor | Borrower.h:22-23 | a new borrower holds the given profile, count 0, no ids and an empty history; it is consistent iff the limit is non-negative |
| Circulation.Borrower.WithDefaultLimit | Student.h:13-15 | without a limit, a student gets 5 and a teacher gets 10 (Teacher.h:12-14); everything else is as in the constructor |
| Circulation.Borrower.CanBorrowMore | Borrower.h:38 | for a consistent borrower, true iff fewer books are held than the limit allows |
| Circulation.Borrower.HasBorrowedBook | Borrower.cpp:132-135 | true iff `std::find` finds the id among the held ids; appending an id that is not held keeps them free of duplicates |
| Circulation.Borrower.SetId | Borrower.h:50 | only the id changes |
| Circulation.Borrower.SetName | Borrower.h:51 | only the name changes |
| Circulation.Borrower.SetDepartment | Borrower.h:52 | only the department changes |
| Circulation.Borrower.SetMaxBorrowLimit | Borrower.h:53 | only the limit changes |
| Circulation.Borrower.AddBorrowedBookId | Borrower.h:56 | appends the id with no limit or duplicate check |
| Circulation.Borrower.IncrementBorrowCount | Borrower.h:57 | the count rises by one with no check |
| Circulation.Borrower.DecrementBorrowCount | Borrower.h:58 | the count drops by one when positive and otherwise stays; a non-negative count stays non-negative |
| Circulation.Borrower.AddToBorrowHistory | Borrower.cpp:137-151 | the history becomes `PushNewest` of the old one with the stamped entry, and stays within 20 |
| Circulation.Borrower.BorrowBookFromLibrary | Borrower.cpp:8-52 | succeeds iff the limit allows another book, the id is not held and the library can lend the book. On success the library's book takes a copy, the id goes once onto the ledger and the borrower's list, the count rises by one, and one history entry is put in front. On failure nothing changes. a count equal to the number of held ids, within the limit and without duplicate ids, stays so |
| Circulation.Borrower.ReturnBookToLibrary | Borrower.cpp:54-89 | succeeds iff the id is held and the library can receive the book. On success the copy goes back, the first occurrence of the id leaves the ledger and the borrower's list, the count drops by one, one history entry is put in front, and the statistics are recounted. On failure nothing changes. Consistency is preserved |
| Circulation.Library.Default | Library.cpp:6 | the default library is empty, with the default name and location |
| Circulation.Library.constructor | Library.cpp:8-9 | an empty library with the given name and location |
| Circulation.Library.FindBookById | Library.cpp:32-37 | the position of the first book with the id; `None` iff no book has it |
| Circulation.Library.FindBookByTitle | Library.cpp:39-44 | the position of the first book with exactly the title; `None` iff no book has it |
| Circulation.Library.FindBooksByCategory | Library.cpp:46-54 | exactly the positions of the books in the category, in increasing catalog order |
| Circulation.Library.FindBooksByAuthor | Library.cpp:56-64 | exactly the positions of the author's books, in increasing catalog order |
| Circulation.Library.IsBookAvailable | Library.cpp:102-105 | true iff the first book with the id has a copy on the shelf |
| Circulation.Library.CanLend | Library.cpp:68-71 | the guard of `lendBook`: true iff `isBookAvailable` holds and the id is not in the ledger |
| Circulation.Library.CanReceive | Library.cpp:88-92 | the guard of `receiveBook`: a book that can be received cannot be lent, and some listed book with the id has a copy out |
| Circulation.Library.UpdateStatistics | Library.cpp:226-234 | the total is the catalog size and the available count is `CountAvailable` of the catalog |
| Circulation.Library.AddBook | Library.cpp:11-15 | appends the book without an id check, then recounts |
| Circulation.Library.RemoveBook | Library.cpp:17-30 | succeeds iff some book has the id; then only the first such book is erased and the statistics are recounted; otherwise nothing changes; the ledger is never touched |
| Circulation.Library.LendBook | Library.cpp:66-85 | succeeds iff the book is listed, has a copy on the shelf and its id is not in the ledger. On success the book takes a copy, the id is appended to the ledger, and the cached available count drops by one. Otherwise nothing changes. The ledger stays free of duplicates |
| Circulation.Library.ReceiveBook | Library.cpp:87-100 | succeeds iff the book is listed, its id is in the ledger and not every copy is in. On success the copy is put back, the id leaves the ledger and the statistics are recounted. Otherwise nothing changes |
| Circulation.Library.SetBooks | Library.cpp:236-239 | replaces the catalog and recounts; the ledger is kept |
| Circulation.Library.SetBorrowers | Library.cpp:241-245 | replaces the borrower list wholesale |
| Circulation.Library.FindBorrowerById | Library.cpp:270-275 | the first listed borrower with the id, as `FirstBorrowerWithId` places it; null iff none has it |
| Circulation.Library.AddBorrower | Library.cpp:248-255 | appends the borrower iff no borrower with its id is present; otherwise the list is unchanged |
| Circulation.Library.RemoveBorrower | Library.cpp:257-268 | erases only the first borrower with the id and keeps the rest in order; the ledger is untouched |
| Circulation.BorrowThenReturn | tests/LibraryCoreTests.cpp:18-24 | after a successful borrow, the return of the same book succeeds and restores the catalog, the ledger, the borrower's held ids and the count |
| Tsv.EscapeRemovesBreaks | FileManager.cpp:11-20 | an escaped field holds no raw tab or newline |
| Tsv.EscapeKeepsPlain | FileManager.cpp:11-20 | a field without tab or newline is written as it is, backslashes included |
| Tsv.EscapeConcat | FileManager.cpp:11-20 | escaping works character by character |
| Tsv.Escape | FileManager.cpp:11-20 | an escaped field is never shorter than the field; what it holds is stated by the three rows above |
| Tsv.Unescape | FileManager.cpp:22-37 | decoding never lengthens a field, and it leaves a field without backslashes unchanged |
| Tsv.UnescapeEscape | FileManager.cpp:11-37 | unescaping undoes escaping for every field without a backslash |
| Tsv.EscapeField | FileManager.cpp:11-20 | the index loop computes `Escape` |
| Tsv.UnescapeField | FileManager.cpp:22-37 | the index loop computes `Unescape`; a pair advances by two and a trailing backslash is kept |
| Tsv.SplitTsv | FileManager.cpp:49-75 | a line always splits into at least one field |
| Tsv.SplitFrom | FileManager.cpp:49-75 | the splitter's state machine, from any state, yields at least one field; its meaning is stated by the rows below |
| Tsv.SplitCount | FileManager.cpp:49-75 | the number of fields is the number of unescaped tabs plus one |
| Tsv.SeparatorsWithoutBackslash | FileManager.cpp:49-75 | without backslashes, every tab separates two fields |
| Tsv.SplitTsvFields | FileManager.cpp:49-75 | the index loop computes `SplitTsv` |
| Tsv.SplitEscaped | FileManager.cpp:49-75 | the splitter reads an escaped field without backslashes back into the current field |
| Tsv.SplitJoin | FileManager.cpp:153-172 | backslash-free fields, escaped, joined by tabs and then split, come back unchanged |
| Tsv.SplitSevenFields | FileManager.cpp:157-164 | seven escaped backslash-free fields, the shape of a book line, split back into themselves |
| Tsv.SplitSixFields | FileManager.cpp:220-225 | six escaped backslash-free fields, the shape of a user line, split back into themselves |
| Tsv.TrailingBackslashSwallowsSeparator | FileManager.cpp:49-75 | a field ending in a backslash swallows the next separator: two fields are read back as one field that contains a tab |
| Tsv.TrailingBackslashDropped | FileManager.cpp:60-73 | a lone backslash at the end of a line is dropped by the split |
| Tsv.UnescapeAll | FileManager.cpp:248 | every field of a split line is unescaped, in place |
| Tsv.TryParseInt | FileManager.cpp:39-47 | a successful parse fits in 32 bits and consumed text that ends in a digit; its exact meaning is in the next three rows |
| Tsv.TryParseIntAccepts | FileManager.cpp:39-47 | white space, an optional sign and at least one digit parse to their signed value when it is in `[IntMin, IntMax]`, and are rejected otherwise |
| Tsv.TryParseIntOnly | FileManager.cpp:39-47 | conversely, every accepted text is white space, an optional sign and at least one digit, and the result is their signed value |
| Tsv.OverflowRejected | FileManager.cpp:39-47 | digits whose value is above `IntMax` are rejected instead of wrapped, and so is their negation below `IntMin` |
| Tsv.NatToString | FileManager.cpp:158 | the decimal digits of a number read back as that number |
| Tsv.IntToString | FileManager.cpp:158 | a printed int starts with a minus sign or a digit |
| Tsv.ParseIntToString | FileManager.cpp:39-47 | every 32-bit int that the savers print is parsed back to itself |
| Tsv.IntToStringPlain | FileManager.cpp:158-164 | a printed int holds no backslash, tab or newline, so escaping leaves it alone |
| Snapshot.BookLineIsOneLine | FileManager.cpp:157-164 | a saved book never spans two lines |
| Snapshot.BookLine | FileManager.cpp:157-164 | a book line starts with the id's decimal form and a tab |
| Snapshot.BookLines | FileManager.cpp:153-172 | one line per book, in catalog order |
| Snapshot.Replay | FileManager.cpp:196-197 | repeated `borrowBook` changes only the available count, keeps the book well formed, and does nothing to a book with no copy |
| Snapshot.ReplayCount | FileManager.cpp:196-197 | each replayed borrow takes one copy until none is left |
| Snapshot.LoadedBook | FileManager.cpp:194-197 | a loaded book is built with the stored total; with `total >= 0` its available count is the stored one clamped into `[0, total]`, and with a negative total it keeps `available == total`; it is always well formed |
| Snapshot.BookFromParts | FileManager.cpp:185-195 | a book comes out iff there are at least seven fields and the id, total and available fields all parse |
| Snapshot.ParseBookLine | FileManager.cpp:183-198 | empty lines give no book; every book is well formed |
| Snapshot.BooksFromLines | FileManager.cpp:182-199 | the loaded catalog has at most one book per line |
| Snapshot.LoadedBooksWellFormed | FileManager.cpp:182-199 | every loaded book has `available <= total`, whatever the file holds |
| Snapshot.SplitBookLine | FileManager.cpp:157-164 | the saved line of a storable book splits into its seven fields |
| Snapshot.BookFromFields | FileManager.cpp:185-197 | the fields of a storable book build that same book |
| Snapshot.BookLineRoundTrip | FileManager.cpp:153-199 | loading the line saved for a storable book gives the book back |
| Snapshot.BooksRoundTrip | FileManager.cpp:153-202 | saving a catalog of storable books and loading it gives the same catalog, so a second save writes the same lines |
| Snapshot.ReplayBorrows | FileManager.cpp:196-197 | the replay loop on a `Book` object yields `Replay` of its state and keeps its invariant |
| Snapshot.BuildBook | FileManager.cpp:185-197 | the loop body for one non-empty line gives exactly `BookFromParts` of its fields |
| Snapshot.LoadBookLine | FileManager.cpp:183-198 | one iteration extends the catalog loaded from the earlier lines by the book of this line, if any |
| Snapshot.LoadBooksFromFile | FileManager.cpp:174-202 | fails iff the file cannot be opened, and then leaves the caller's books alone; otherwise it returns the catalog of the lines, in order |
| Snapshot.BorrowerLineIsOneLine | FileManager.cpp:220-225 | a saved user never spans two lines |
| Snapshot.BorrowerLine | FileManager.cpp:220-225 | a user line starts with the escaped type tag and a tab |
| Snapshot.ProfilesOf | FileManager.cpp:208-226 | the saved part of every borrower, in list order |
| Snapshot.BorrowerLines | FileManager.cpp:204-233 | one line per borrower, in list order |
| Snapshot.CreateBorrowerFromParts | FileManager.cpp:132-149 | a borrower comes out iff there are at least six fields, the limit parses and the tag is one of the English or Chinese tags; the fields land in id, name, department, limit and the variant's extra field, and the tag picks the variant |
| Snapshot.ProfilesFromLines | FileManager.cpp:244-254 | at most one borrower per line |
| Snapshot.ParseBorrowerLine | FileManager.cpp:246-249 | an empty line gives no borrower, and a parsed limit fits in 32 bits |
| Snapshot.TypeNamePlain | FileManager.cpp:142-147 | the tag written for a borrower (Student.h:18, Teacher.h:17) is read back as the same variant |
| Snapshot.SplitBorrowerLine | FileManager.cpp:220-225 | the saved line of a storable borrower splits into its six fields |
| Snapshot.UnescapePlainFields | FileManager.cpp:248 | the second unescaping leaves fields without backslashes unchanged |
| Snapshot.ProfileFromFields | FileManager.cpp:132-149 | the fields of a storable borrower build the same profile and variant |
| Snapshot.BorrowerFieldsPlain | FileManager.cpp:248 | the fields of a storable borrower survive the second unescaping |
| Snapshot.BorrowerLineRoundTrip | FileManager.cpp:204-254 | loading the line saved for a storable borrower gives it back |
| Snapshot.BorrowersRoundTrip | FileManager.cpp:204-257 | saving storable borrowers and loading the file gives the same profiles, in order |
| Snapshot.UnescapeFields | FileManager.cpp:248 | the loop unescapes every field |
| Snapshot.BuildBorrower | FileManager.cpp:246-253 | for one line: no borrower iff the line does not parse; otherwise a new borrower with the parsed profile and no held books or history |
| Snapshot.LoadBorrowerLine | FileManager.cpp:245-254 | one iteration extends the borrowers built from the earlier lines by the borrower of this line, if any |
| Snapshot.LoadBorrowersFromFile | FileManager.cpp:235-257 | fails iff the file cannot be opened, and then leaves the list alone; otherwise the list is built from the profiles of the lines, in order, with no held books or history |
| Snapshot.ExpectedPassword | FileManager.cpp:260 | the password is the last six bytes of the id's UTF-8 form, or all of it when the id is shorter |
| Snapshot.AsciiPassword | FileManager.cpp:260 | for an ASCII id these bytes are the id's last six characters, or the whole id |
| Snapshot.SplitCharacterLocksOut | FileManager.cpp:259-261 | when the six bytes start inside a character, no password matches, so the user can never log in |
| Snapshot.SplitCharacterExample | FileManager.cpp:259-261 | an id of two CJK characters followed by "01" expects six bytes that start with a continuation byte, and every login with it fails |
| Snapshot.LoginProfile | FileManager.cpp:259-278 | a user comes back iff the password's bytes are the id's six-byte suffix, the file opens and some loaded user has the id; the user returned is the first loaded user with that id |
| Snapshot.LoginUser | FileManager.cpp:259-278 | returns null exactly when `LoginProfile` gives none; otherwise a valid borrower with that profile, count 0 and no held books |
| Snapshot.LoadLibrarySnapshot | FileManager.cpp:294-315 | succeeds iff both files open; then the catalog and the borrower list are replaced by the loaded ones and the statistics are recounted; otherwise the library is unchanged; the ledger is never touched |
| Snapshot.SaveThenLoad | FileManager.cpp:280-315 | saving a library of storable books and borrowers and loading the files back succeeds and gives the same catalog and borrower profiles |
| Recommendation.Bump | src/cli/BookRecommendationService.cpp:9 | the frequency of exactly that id rises by one (from 0 when new), and every other id keeps its frequency |
| Recommendation.AppendTo | src/cli/BookRecommendationService.cpp:10 | the id is appended to its category's list (a new list when the category is new), and every other category is unchanged |
| Recommendation.BookRecommendationService.constructor | src/cli/BookRecommendationService.h:16-17 | both tables start empty |
| Recommendation.BookRecommendationService.RecordBorrow | src/cli/BookRecommendationService.cpp:8-12 | the tables become `Bump` and `AppendTo` of the old ones |
| Recommendation.Insert | src/cli/BookRecommendationService.cpp:20 | insertion keeps every pair and adds one |
| Recommendation.SortDescending | src/cli/BookRecommendationService.cpp:20 | the sort is a permutation of the pairs |
| Recommendation.InsertDescending | src/cli/BookRecommendationService.cpp:20 | inserting a new pair into a strictly descending sequence keeps it strictly descending |
| Recommendation.SortIsDescending | src/cli/BookRecommendationService.cpp:20 | sorting distinct `(count, id)` pairs yields them in strictly descending order |
| Util.Project | src/cli/BookRecommendationService.cpp:25-27 | one key per element, in order: the ids copied out of the sorted pairs, and the id and title columns the lookups search |
| Recommendation.CollectEntries | src/cli/BookRecommendationService.cpp:15-19 | exactly one `(count, id)` pair for every key of the table, with no repeats |
| Recommendation.BookRecommendationService.PopularBooks | src/cli/BookRecommendationService.cpp:14-29 | `IsPopular`: exactly `min(topN, distinct ids)` distinct recorded ids, ordered by falling count with ties to the larger id, and every id left out ranks below every id returned; the tables are not modified |
| Recommendation.PopularProperties | src/cli/BookRecommendationService.cpp:15-27 | sorting the table's pairs and copying out the first ids gives `IsPopular` |
| Recommendation.SortedTable | src/cli/BookRecommendationService.cpp:15-20 | the sorted pairs are exactly the table's pairs, strictly descending |
| Recommendation.CopyOut | src/cli/BookRecommendationService.cpp:22-27 | the first `min(topN, size)` ids of the sorted pairs satisfy `IsPopular` |
| Ranking.Score | src/gui/LibraryController.cpp:139-152 | an available book scores at least 30 plus five per recorded borrow, and a book with no copy on the shelf at most five per recorded borrow |
| Ranking.InsertBy | src/gui/LibraryController.cpp:156-159 | insertion by key keeps every book and adds one |
| Ranking.SortBy | src/gui/LibraryController.cpp:156-159 | the sort by score is a permutation of the catalog |
| Ranking.InsertBySorted | src/gui/LibraryController.cpp:156-159 | inserting into a sequence sorted by descending key keeps it sorted |
| Ranking.SortBySorted | src/gui/LibraryController.cpp:156-159 | the scores never increase along the sorted catalog |
| Ranking.Select | src/gui/LibraryController.cpp:165-171 | a group never has more books than the sorted catalog |
| Ranking.SelectSplits | src/gui/LibraryController.cpp:165-171 | the available group and the other group together hold every book exactly once |
| Ranking.SelectFrom | src/gui/LibraryController.cpp:165-171 | every book of a group comes from the catalog and has the group's availability |
| Ranking.SelectGroup | src/gui/LibraryController.cpp:156-171 | each group keeps non-increasing scores |
| Ranking.GroupsRanked | src/gui/LibraryController.cpp:173-185 | the available group followed by the other group puts available books first, each part by descending score |
| Ranking.RankedPrefix | src/gui/LibraryController.cpp:173-185 | a prefix of that ordering takes each catalog entry at most once, is ranked, and stands ahead of every entry it leaves out |
| Ranking.OrderedCatalog | src/gui/LibraryController.cpp:156-171 | sorting and splitting the catalog gives the same books, ranked |
| Ranking.TakeUpTo | src/gui/LibraryController.cpp:173-185 | the two copy loops take the first `min(limit, size)` books of the available group followed by the others, and none when `limit <= 0` |
| Ranking.Partition | src/gui/LibraryController.cpp:165-171 | the loop splits the sorted books into the available and the unavailable ones, each in sorted order |
| Ranking.RecommendBooks | src/gui/LibraryController.cpp:106-188 | the list has `min(limit, size of the catalog)` entries (none when `limit <= 0`, or for an empty catalog); it is a sub-multiset of the catalog; available books come first and scores do not increase within each group; and no book left out ranks ahead of a book offered |

## Left out

- File and console I/O: opening, reading and writing streams, the temporary file and rename in `writeFileSafely`, `ensureParentDirectory`, and every message printed. A file is given as its lines, or `None` when it cannot be opened. Saving yields the lines and is assumed to succeed.
- Time stamps: `addToBorrowHistory` reads the clock through `ctime`. The stamp is a parameter of the borrow and return flows instead.
- Raw pointers, `delete` and aliasing. This covers the borrowers freed by `setBorrowers`, `removeBorrower` and the loaders, and the borrower leaked when `addBorrower` refuses a duplicate. Catalog books are values, as the `std::vector<Book>` holds them.
- Null pointers in the borrower list. A `std::vector<Borrower*>` may hold null entries that the savers and `loginUser` skip; the model's lists never hold null.
- Snapshot.LoadedBook: does not model 32-bit wrap-around of `total - available`. That subtraction overflows for extreme stored values, and the model uses the exact difference.
- Recommendation.Bump: frequencies are unbounded integers; 32-bit overflow is not modelled.
- Ranking.RecommendBooks: scores are unbounded integers, so an overflow of `10 * available + 5 * count + 20` is not modelled. The per-book borrow counts are an input map instead of the database's borrow records. Among books with equal scores no order is promised, because `std::sort` is not stable.
- Recommendation.CollectEntries: the `std::map` visiting order is not modelled; the pairs are collected in any order. The sorted result is the same whatever the order, because the pairs are distinct.
- `Library::initializeWithSampleBooks`, the display and print functions and `printStatistics`: fixed seed data and console output.
- The book getters and `Borrower`'s other getters: plain field reads.
- Text is a sequence of Unicode characters. The source's strings hold UTF-8 bytes; the two agree wherever the code compares whole strings or looks for tabs, newlines and backslashes, and the byte count matters only for the password suffix, which is modelled over the UTF-8 bytes.
- `Borrower.h`'s default constructor, and the default constructors of `Student.h` and `Teacher.h`: they build a nameless borrower with limit 0, which no code path of the core uses.
- Circulation.Library.Valid: the cached available count is left out of the invariant on purpose, because `LendBook` lowers it instead of recounting (see `Circulation.LendDrift`).
- The database paths of the graphical controller and the interactive command-line menus are not part of this model.
