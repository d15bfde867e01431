# Library management system: model of the catalog, lending and access core

The system is a console program for a small library. It keeps three lists:
the book records, the borrowed books and the user accounts. A user logs in,
or first creates an account. Then the user picks numbered menu choices:
display, add, update, delete, borrow, return, sort by publisher, sort by
copies, or quit. Only the identity `admin` may add, update or delete.

This Dafny project models that core in `dsa_assignment_1/main2.py`. The
modules are:

- `Books` (books.dfy): the `Book` record and the object store. The program
  works with references to mutable `Book` objects, so a book is modelled as
  an identity `Id` into a `Store` map. The catalog (`book_records`) and the
  borrowed list (`borrowed_books`) are sequences of identities. A book
  borrowed during a run is the same object as its catalog entry until the
  program restarts. A deleted book stays alive while a loan still refers
  to it. `FindIsbn` is the shared
  "first record with this ISBN" scan of the `for … break … else` loops.
  `Available` is `list_available_books`.
- `Library` (library.dfy): the state and the handlers `AddBook`,
  `UpdateBook`, `DeleteBook`, `Borrow` and `Return`. Each takes the
  console input it reads, already parsed, as parameters. Each returns
  the new state or an `Error` and leaves the state unchanged on error.
  `Reload` is what saving and loading the data files does to object
  identity: the two lists are pickled to separate files, so after a restart
  no loan is the same object as a catalog entry.
- `Sorting` (sorting.dfy): the bubble sort by publisher and the insertion
  sort by copy count, as methods with loops over a sequence of references.
- `Accounts` (accounts.dfy): `create_account`, the password test of
  `login`, and one round of the login menu.
- `Session` (session.dfy): the dispatch of one menu choice, the admin gate,
  and the menu loop of `main`. `Transition` says what one pass of the loop
  does with one choice. The loop returns, as ghost outputs, the states it
  passed through and how each choice ended, and every step of that record
  is one `Transition`.
- `Isbn` (isbn.dfy): `len(str(n)) == 13`, with `str` of an `int` written
  out in decimal, and its exact integer range.
- `Lex` (lex.dfy): Python's `<` on strings (code-point lexicographic
  order) and the facts the sort proofs need: it is a strict total order.
- `Seqs` and `Wrappers`: `list.remove` (first occurrence) and the
  `Option`/`Result` types.

## Model

| member | source | states |
|---|---|---|
| Sorting.BubbleSortByPublisher | dsa_assignment_1/main2.py:295-302 | the result is a permutation of the catalog; it is in ascending publisher order under Python string comparison; and records with equal publishers keep their relative order (the sort swaps only on a strict `>`) |
| Sorting.BubblePass | dsa_assignment_1/main2.py:298-300 | one inner pass over the first `m` places moves the largest publisher among them to place `m-1`; it keeps the records, and it keeps the order of equal publishers |
| Sorting.InsertionSortByCopies | dsa_assignment_1/main2.py:304-313 | the result is a permutation of the catalog; it is in descending copy-count order; and records with equal counts keep their relative order (the shift happens only on a strict `>`) |
| Sorting.InsertByCopies | dsa_assignment_1/main2.py:306-311 | inserting the record at place `i` into the sorted prefix before it gives a sorted prefix one longer; it keeps the records, and it keeps the order of equal counts |
| Sorting.Swap | dsa_assignment_1/main2.py:300 | the two neighbours trade places, every other place keeps its element, and the elements are the same as before |
| Sorting.SwapKeepsWithKey | dsa_assignment_1/main2.py:300 | exchanging two neighbours that do not share a key value leaves the order of every key value's records unchanged |
| Books.FindIsbn | dsa_assignment_1/main2.py:237-238 | the index found is the first record carrying the ISBN; none is found exactly when no record carries it |
| Books.Available | dsa_assignment_1/main2.py:248-255 | a record is listed exactly when it is in the catalog with a positive copy count and marked available |
| Books.AvailableAppend | dsa_assignment_1/main2.py:248-255 | the listing of two parts of the catalog, one after the other, is the listing of the whole, so the listing keeps the catalog's order |
| Library.AddBook | dsa_assignment_1/main2.py:89-141 | a book is added exactly when its ISBN prints with 13 characters, its title is non-empty and its copy count is positive; the new record is a fresh object appended at the end; nothing else changes |
| Library.UpdateBook | dsa_assignment_1/main2.py:143-228 | a missing ISBN is the only cause of "no book found"; the update succeeds exactly when the ISBN exists, the new ISBN has 13 characters and belongs to no record whose ISBN differs from the old one, the title is non-empty and the resulting copy count is positive; an empty copies line keeps the current count; only the first matching record changes, and it gets every new field value |
| Library.DeleteBook | dsa_assignment_1/main2.py:232-246 | a delete succeeds exactly when the ISBN is in the catalog; it removes the first matching entry only and keeps the order of the rest; a miss changes nothing |
| Library.Borrow | dsa_assignment_1/main2.py:257-275 | a borrow succeeds exactly when the first record with the ISBN has copies and is marked available; it then has one copy fewer, its reference is appended to the borrowed list, and no other record changes; a missing ISBN and an unavailable record are told apart |
| Library.Return | dsa_assignment_1/main2.py:278-293 | a return fails exactly when no borrowed record has the ISBN, or the first one has left the catalog (the `index` lookup raises); otherwise that record gets one copy back, exactly that loan is removed from the borrowed list, and no other record changes |
| Library.BorrowThenReturn | dsa_assignment_1/main2.py:261-265 | borrowing an ISBN that has no loan yet and then returning it restores the state: copy count, borrowed list and catalog |
| Library.BorrowAgainThenReturn | dsa_assignment_1/main2.py:261-265 | borrowing another copy of a book whose first loan is that same record, then returning the ISBN, restores every record (the copy count included), the catalog and the loans as a multiset |
| Library.BorrowSucceedsIffListed | dsa_assignment_1/main2.py:249 | a borrow succeeds exactly when the first record with the ISBN is among those `list_available_books` shows |
| Library.UpdateThenFind | dsa_assignment_1/main2.py:163-165 | after an update, a search for the new ISBN finds the updated record in the place where the old ISBN was found |
| Library.UpdateWithCurrentValues | dsa_assignment_1/main2.py:194-220 | when the record would pass the field checks of `add_book` (in particular, it still has copies), entering every current value again with an empty copies line leaves the state as it was; a record with no copies left is refused at the copies prompt |
| Library.AddAcceptsDuplicateIsbn | dsa_assignment_1/main2.py:137-138 | adding a book whose ISBN is already in the catalog is accepted and appends a second record with it |
| Library.AddThenDelete | dsa_assignment_1/main2.py:237-239 | adding a book with a new ISBN and then deleting that ISBN gives back the catalog, the borrowed list and every record that existed before |
| Library.RemovalKeepsDistinct | dsa_assignment_1/main2.py:239 | removing one entry from a catalog without repeated objects leaves none repeated |
| Library.GiveBack | dsa_assignment_1/main2.py:285-286 | the successful return of the loan at place `k`, the first loan of its record: that record gets one copy more, that one loan leaves the borrowed list, nothing else changes, and the state stays well formed and valid |
| Library.Reload | dsa_assignment_1/main2.py:29-56 | after saving and loading, the catalog lists the same objects with the same fields, and each loan is a separate object whose fields equal those of the object it was |
| Library.ReloadSeparatesLoans | dsa_assignment_1/main2.py:51-56 | after saving and loading, no loan is an object of the catalog; two loans are the same object exactly when they were before; the catalog still lists no object twice |
| Library.ReturnAfterReload | dsa_assignment_1/main2.py:283-285 | after saving and loading, every return of an ISBN that is on loan fails at the `index` lookup, and a return of any other ISBN finds no loan |
| Seqs.RemoveFirst | dsa_assignment_1/main2.py:239 | `list.remove` drops exactly one occurrence of the element: the result together with that element has the same elements as the list |
| Seqs.RemoveFirstAt | dsa_assignment_1/main2.py:286 | `list.remove` of an element whose first occurrence is at `i` gives the list without place `i` |
| Seqs.IndexOf | dsa_assignment_1/main2.py:285 | `list.index` gives the first place holding the element |
| Isbn.IsbnAcceptedRange | dsa_assignment_1/main2.py:93 | `len(str(n)) == 13` holds exactly for 1000000000000 to 9999999999999 and for -999999999999 to -100000000000 |
| Isbn.NegativeIsbnAccepted | dsa_assignment_1/main2.py:163 | the length test accepts a negative 12-digit number and rejects the same number without its sign |
| Isbn.NatToStringLength | dsa_assignment_1/main2.py:93 | the decimal form of `n` has more than `d` digits exactly when `n >= 10^d` |
| Lex.LessCharacterization | dsa_assignment_1/main2.py:299 | one string is below another exactly when it is a proper prefix of it or is smaller at the first place where they differ |
| Lex.LessTransitive | dsa_assignment_1/main2.py:299 | string order is transitive |
| Lex.LessTotal | dsa_assignment_1/main2.py:299 | two different strings are always ordered one way or the other |
| Lex.LessIrreflexive | dsa_assignment_1/main2.py:299 | no string is below itself |
| Accounts.CreateAccount | dsa_assignment_1/main2.py:315-326 | an account is created exactly when the username is not taken; it gets the given password; no existing account is overwritten |
| Accounts.Login | dsa_assignment_1/main2.py:340-344 | a login succeeds exactly when the username is known and the stored password is the one given, and it yields that username |
| Accounts.CreateThenLogin | dsa_assignment_1/main2.py:324 | a new account can log in right away, and every other login gives the same answer as before |
| Accounts.InitialLogin | dsa_assignment_1/main2.py:46 | with no account file, only `admin` with password `password` can log in |
| Accounts.LoginRound | dsa_assignment_1/main2.py:328-349 | the login menu ends with the user's identity exactly on a good login and ends with none exactly on choice 3; only a sign-up with a new name changes the accounts |
| Session.Step | dsa_assignment_1/main2.py:357-389 | choices 2-4 are refused exactly when the user is not `admin`; a refused, failed or unrecognised choice changes nothing; for `admin` they run the add, update and delete handlers; choices 5 and 6 run borrow and return, and a return whose record left the catalog ends the program; choices 7 and 8 leave the catalog sorted and stable with nothing else changed; for other users no record changes except its copy count, and the catalog keeps the same entries |
| Session.Run | dsa_assignment_1/main2.py:357-389 | the menu loop carries out the choices in order: a record of the states it passes through shows every choice read as one `Transition` (the dispatch of a single pass, with each handler's outcome and each sort's result), from the starting state to the final one; no choice before the last was choice 9 or a raising return, and the loop stops only at the first of those or when the choices run out; it keeps the state well formed and valid; a user other than `admin` never adds, removes or edits a record |
| Session.Advance | dsa_assignment_1/main2.py:357-389 | one pass of the loop extends the record of choices by the `Transition` of the next choice, from the state the record ends in |
| Session.TracedKeeps | dsa_assignment_1/main2.py:357-389 | along any record of choices, validity and (for a user other than `admin`) every record's fields other than the copy count carry from the first state to each later one |
| Session.TracedStops | dsa_assignment_1/main2.py:357-389 | when no choice before the last ended the program, none of them was choice 9; the last finished the session exactly when it was choice 9, and it raised only as a return that fails at the `index` lookup |
| Session.Manage | dsa_assignment_1/main2.py:364-369 | for `admin`, choices 2, 3 and 4 run the add, update and delete handlers; a success gives the handler's new state, a failure leaves the state as it was, and none of them ends the program; the state stays well formed and valid |
| Session.Lend | dsa_assignment_1/main2.py:372-375 | choices 5 and 6 run borrow and return; a return whose record left the catalog, and only that, ends the program; a failure leaves the state as it was; the catalog keeps the same entries, no record is added or dropped, and only copy counts and the borrowed list can change |
| Session.Reorder | dsa_assignment_1/main2.py:376-381 | choices 7 and 8 replace the catalog by a permutation of itself, sorted by publisher or by descending copy count and stable; nothing else in the state changes |
| Session.SortKeepsValid | dsa_assignment_1/main2.py:376-381 | reordering the catalog keeps every reference resolvable and no object listed twice |

## Left out

- The pickle files are not modelled as bytes. `Library.Initial` and `Accounts.InitialAccounts` are the states when no file exists. `Library.Reload` models only what a save followed by a load does to the state.
- Library.Reload: `book_records` and `borrowed_books` are pickled to separate files (main2.py:51-56) and unpickled separately (main2.py:29-40). After a restart every loan is therefore an object of its own, not the catalog entry it was taken from. From then on, returning any book borrowed in an earlier run raises at `book_records.index(book)` (`Library.ReturnAfterReload`), and that catalog entry never gets its copy back. The menu loop (`Session.Run`) models one run of the program. What the next run loads is `Library.Reload` of the state as last saved, and that is not always the state the run ended in. `save_data` runs after each successful add, update, delete, borrow and return, after a new account and at choice 9 (main2.py:385). Choices 7 and 8 do not save. So after a run that ends `Crashed`, a catalog order set by a sort since the last save is lost. Only a run that ends at choice 9 saves the state it ended in.
- Logging and all printing are not modelled. This includes `display_books` and the listing that `update_book`, `delete_book`, `borrow_book` and `return_book` print before they prompt. Choice 1 is modelled as a step that changes nothing.
- Prompt loops and text parsing are not modelled. The handlers take already parsed values.
  - A value the source would refuse and ask for again is modelled as one `InputRejected` outcome that changes nothing. The source keeps prompting until it gets a good value.
  - A taken username at sign-up is modelled the same way: the round changes nothing. The source asks for another name.
  - The unguarded `int(input(...))` for the ISBN to update, delete, borrow or return raises on a non-number. It is not modelled, because its input is already an integer here.
- Library.AddBook: does not check that the publisher and language are letters only (`isalpha`). Python's Unicode letter classes are not modelled, so any publisher and language is accepted.
- Library.UpdateBook: does not check that the publisher is letters and digits (`isalnum`) or that the language is letters only (`isalpha`), for the same reason. The two handlers differ here: `update_book` also admits digits in the publisher.
- The parsing of the availability text (`true` or `false` in any case, with surrounding spaces stripped) is not modelled. Availability arrives as a `bool`.
- Library.Return: when the returned record is no longer in the catalog, the source raises `ValueError` from `book_records.index(book)`. The handler reports `RecordDeleted` and changes nothing. `Session.Step` turns that error into the status `Crashed`, and `Session.Run` stops there, because nothing in `main` catches the exception.
- Session.Run: the loop over a finite list of choices stands for the unbounded `while True`. Running out of choices is not a program exit.
- Running out of memory and other interpreter failures are not modelled.
- The ISBN check is modelled as written. `len(str(n)) == 13` accepts negative numbers with 12 digits (`Isbn.NegativeIsbnAccepted`). The rest of the model uses this check as the program does.
