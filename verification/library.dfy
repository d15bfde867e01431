/**
 * The catalog and lending state of the library and the handlers that
 * change it: `add_book`, `update_book`, `delete_book`, `borrow_book` and
 * `return_book`, with the already validated console input as parameters.
 * Each handler returns the new state, or the reason it made no change.
 */
module Library {
  import opened Wrappers
  import opened Seqs
  import opened Isbn
  import opened Books

  /**
   * `book_records` is `catalog`, `borrowed_books` is `borrowed`; both hold
   * identities of objects in `store`. `nextId` is the identity the next new
   * `Book` object gets.
   */
  datatype State = State(store: Store, catalog: seq<Id>, borrowed: seq<Id>, nextId: Id)

  datatype Error =
    | NoSuchIsbn      // "No book found with the provided ISBN"
    | NotAvailable    // "The selected book is not available for borrowing"
    | InputRejected   // the input would be refused and asked for again
    | RecordDeleted   // `book_records.index(book)` raises: the borrowed record left the catalog

  /** Every reference resolves and no live object has an identity at or above `nextId`. */
  predicate WellFormed(s: State)
  {
    && Refers(s.store, s.catalog)
    && Refers(s.store, s.borrowed)
    && forall id :: id in s.store ==> id < s.nextId
  }

  /**
   * What the handlers keep true of a well-formed state: each object stands
   * in the catalog at most once, and no copy count is negative.
   */
  predicate Valid(s: State)
  {
    && WellFormed(s)
    && (forall id :: id in s.catalog ==> multiset(s.catalog)[id] == 1)
    && (forall id :: id in s.store ==> s.store[id].numCopies >= 0)
  }

  /** The state when no data files exist yet. */
  const Initial: State := State(map[], [], [], 0)

  /** `t` differs from `s` at most in the fields of the record `id`. */
  predicate OnlyRecordChanged(s: State, t: State, id: Id)
  {
    && t.catalog == s.catalog
    && t.nextId == s.nextId
    && t.store.Keys == s.store.Keys
    && forall other :: other in s.store && other != id ==> t.store[other] == s.store[other]
  }

  /** The record a catalog handler acts on: the first one in the catalog carrying `isbn`. */
  function Target(s: State, isbn: int): (id: Id)
    requires WellFormed(s) && HasIsbn(s.store, s.catalog, isbn)
    ensures exists i :: IsFirstMatch(s.store, s.catalog, isbn, i) && s.catalog[i] == id
  {
    s.catalog[FindIsbn(s.store, s.catalog, isbn).value]
  }

  // ---------------------------------------------------------------- add

  /** The field checks of `add_book`: ISBN prints with 13 characters, title non-empty, copies positive. */
  predicate AddAccepted(b: Book)
  {
    IsbnAccepted(b.isbn) && |b.title| > 0 && b.numCopies > 0
  }

  /** `add_book`: a new `Book` object is appended. No ISBN uniqueness check is made. */
  function AddBook(s: State, b: Book): (r: Result<State, Error>)
    requires WellFormed(s)
    ensures r.Success? <==> AddAccepted(b)
    ensures r.Failure? ==> r.error == InputRejected
    ensures r.Success? ==>
      var t := r.value;
      && WellFormed(t)
      && |t.catalog| == |s.catalog| + 1
      && t.catalog[..|s.catalog|] == s.catalog
      && t.catalog[|s.catalog|] !in s.store
      && t.store[t.catalog[|s.catalog|]] == b
      && t.borrowed == s.borrowed
      && (forall id :: id in s.store ==> id in t.store && t.store[id] == s.store[id])
    ensures r.Success? && Valid(s) ==> Valid(r.value)
  {
    if !AddAccepted(b) then Failure(InputRejected)
    else
      var id := s.nextId;
      var t := State(s.store[id := b], s.catalog + [id], s.borrowed, id + 1);
      assert t.catalog[..|s.catalog|] == s.catalog;
      assert multiset(t.catalog) == multiset(s.catalog) + multiset{id};
      Success(t)
  }

  // ---------------------------------------------------------------- update

  /** The replacement values typed at the prompts of `update_book`; `copies` is `None` for an empty line. */
  datatype Edit = Edit(
    isbn: int,
    title: string,
    publisher: string,
    language: string,
    copies: Option<int>,
    availability: bool)

  /**
   * The clash test `new_isbn not in [b.isbn for b in book_records if b.isbn != isbn]`:
   * only records whose ISBN differs from the one being updated are looked at.
   */
  predicate IsbnTaken(s: State, oldIsbn: int, newIsbn: int)
    requires WellFormed(s)
  {
    exists k :: 0 <= k < |s.catalog| && s.store[s.catalog[k]].isbn != oldIsbn && s.store[s.catalog[k]].isbn == newIsbn
  }

  /** `int(num_copies) if num_copies else book.num_copies` */
  function NewCopies(current: int, input: Option<int>): int
  {
    match input
    case None => current
    case Some(n) => n
  }

  /** The field checks of `update_book` for the record currently holding `current`. */
  predicate EditAccepted(s: State, oldIsbn: int, current: Book, e: Edit)
    requires WellFormed(s)
  {
    && IsbnAccepted(e.isbn)
    && !IsbnTaken(s, oldIsbn, e.isbn)
    && |e.title| > 0
    && NewCopies(current.numCopies, e.copies) > 0
  }

  /** The record after the six assignments at the end of `update_book`. */
  function Edited(b: Book, e: Edit): Book
  {
    Book(e.isbn, e.title, e.publisher, e.language, NewCopies(b.numCopies, e.copies), e.availability)
  }

  /** `update_book`: rewrites the fields of the first record with the ISBN. */
  function UpdateBook(s: State, isbn: int, e: Edit): (r: Result<State, Error>)
    requires WellFormed(s)
    ensures r.Failure? && r.error == NoSuchIsbn <==> !HasIsbn(s.store, s.catalog, isbn)
    ensures r.Failure? ==> r.error in {NoSuchIsbn, InputRejected}
    ensures r.Success? <==>
      HasIsbn(s.store, s.catalog, isbn) && EditAccepted(s, isbn, s.store[Target(s, isbn)], e)
    ensures r.Success? ==>
      var id := Target(s, isbn);
      && OnlyRecordChanged(s, r.value, id)
      && r.value.borrowed == s.borrowed
      && r.value.store[id].isbn == e.isbn
      && r.value.store[id].title == e.title
      && r.value.store[id].publisher == e.publisher
      && r.value.store[id].language == e.language
      && r.value.store[id].availability == e.availability
      && (e.copies.None? ==> r.value.store[id].numCopies == s.store[id].numCopies)
      && (e.copies.Some? ==> r.value.store[id].numCopies == e.copies.value)
    ensures r.Success? ==> WellFormed(r.value)
    ensures r.Success? && Valid(s) ==> Valid(r.value)
  {
    match FindIsbn(s.store, s.catalog, isbn)
    case None => Failure(NoSuchIsbn)
    case Some(i) =>
      var id := s.catalog[i];
      var b := s.store[id];
      if !EditAccepted(s, isbn, b, e) then Failure(InputRejected)
      else Success(s.(store := s.store[id := Edited(b, e)]))
  }

  // ---------------------------------------------------------------- delete

  /** `delete_book`: removes the first record with the ISBN from the catalog. */
  function DeleteBook(s: State, isbn: int): (r: Result<State, Error>)
    requires WellFormed(s)
    ensures r.Success? <==> HasIsbn(s.store, s.catalog, isbn)
    ensures r.Failure? ==> r.error == NoSuchIsbn
    ensures r.Success? ==>
      var i := FindIsbn(s.store, s.catalog, isbn).value;
      && r.value.catalog == s.catalog[..i] + s.catalog[i + 1..]
      && r.value.store == s.store
      && r.value.borrowed == s.borrowed
      && r.value.nextId == s.nextId
    ensures r.Success? ==> WellFormed(r.value)
    ensures r.Success? && Valid(s) ==> Valid(r.value)
  {
    match FindIsbn(s.store, s.catalog, isbn)
    case None => Failure(NoSuchIsbn)
    case Some(i) =>
      var id := s.catalog[i];
      RemoveFirstAt(s.catalog, id, i);
      var t := s.(catalog := RemoveFirst(s.catalog, id));
      RemovalKeepsDistinct(s.catalog, t.catalog, id);
      Success(t)
  }

  /** Removing one occurrence from a list without repeats leaves a list without repeats. */
  lemma RemovalKeepsDistinct(c: seq<Id>, c': seq<Id>, id: Id)
    requires multiset(c') + multiset{id} == multiset(c)
    ensures (forall x :: x in c ==> multiset(c)[x] == 1) ==> (forall x :: x in c' ==> multiset(c')[x] == 1)
  {
    forall x | x in c' && (forall y :: y in c ==> multiset(c)[y] == 1)
      ensures multiset(c')[x] == 1
    {
      assert multiset(c)[x] == multiset(c')[x] + multiset{id}[x];
      assert x in multiset(c);
    }
  }

  // ---------------------------------------------------------------- borrow

  /** `borrow_book`: takes one copy of the first record with the ISBN and records the loan. */
  function Borrow(s: State, isbn: int): (r: Result<State, Error>)
    requires WellFormed(s)
    ensures r.Success? <==> HasIsbn(s.store, s.catalog, isbn) && Borrowable(s.store[Target(s, isbn)])
    ensures r.Failure? ==> r.error in {NoSuchIsbn, NotAvailable}
    ensures r.Failure? ==> (r.error == NoSuchIsbn <==> !HasIsbn(s.store, s.catalog, isbn))
    ensures r.Success? ==>
      var id := Target(s, isbn);
      && OnlyRecordChanged(s, r.value, id)
      && r.value.store[id] == s.store[id].(numCopies := s.store[id].numCopies - 1)
      && r.value.borrowed == s.borrowed + [id]
    ensures r.Success? ==> WellFormed(r.value)
    ensures r.Success? && Valid(s) ==> Valid(r.value)
  {
    match FindIsbn(s.store, s.catalog, isbn)
    case None => Failure(NoSuchIsbn)
    case Some(i) =>
      var id := s.catalog[i];
      var b := s.store[id];
      if !Borrowable(b) then Failure(NotAvailable)
      else Success(s.(store := s.store[id := b.(numCopies := b.numCopies - 1)], borrowed := s.borrowed + [id]))
  }

  // ---------------------------------------------------------------- return

  /** The loan a return of `isbn` acts on: the first borrowed record carrying it. */
  function Loan(s: State, isbn: int): (id: Id)
    requires WellFormed(s) && HasIsbn(s.store, s.borrowed, isbn)
    ensures exists k :: IsFirstMatch(s.store, s.borrowed, isbn, k) && s.borrowed[k] == id
  {
    s.borrowed[FindIsbn(s.store, s.borrowed, isbn).value]
  }

  /**
   * `return_book`: finds the first borrowed record with the ISBN, adds a
   * copy back to that same record through the catalog, and drops that loan.
   */
  function Return(s: State, isbn: int): (r: Result<State, Error>)
    requires WellFormed(s)
    ensures r.Failure? ==> r.error in {NoSuchIsbn, RecordDeleted}
    ensures r.Failure? && r.error == NoSuchIsbn <==> !HasIsbn(s.store, s.borrowed, isbn)
    ensures r.Failure? && r.error == RecordDeleted <==>
      HasIsbn(s.store, s.borrowed, isbn) && Loan(s, isbn) !in s.catalog
    ensures r.Success? ==>
      var k := FindIsbn(s.store, s.borrowed, isbn).value;
      && Loan(s, isbn) in s.catalog
      && OnlyRecordChanged(s, r.value, s.borrowed[k])
      && r.value.store[s.borrowed[k]] == s.store[s.borrowed[k]].(numCopies := s.store[s.borrowed[k]].numCopies + 1)
      && r.value.borrowed == s.borrowed[..k] + s.borrowed[k + 1..]
    ensures r.Success? ==> WellFormed(r.value)
    ensures r.Success? && Valid(s) ==> Valid(r.value)
  {
    match FindIsbn(s.store, s.borrowed, isbn)
    case None => Failure(NoSuchIsbn)
    case Some(k) =>
      if s.borrowed[k] !in s.catalog then Failure(RecordDeleted)
      else
        FirstMatchIsFirstOccurrence(s.store, s.borrowed, isbn, k);
        Success(GiveBack(s, k))
  }

  /** The success path of `return_book` for the loan at place `k`, its first occurrence. */
  function GiveBack(s: State, k: nat): (t: State)
    requires WellFormed(s) && k < |s.borrowed| && s.borrowed[k] in s.catalog
    requires forall j :: 0 <= j < k ==> s.borrowed[j] != s.borrowed[k]
    ensures OnlyRecordChanged(s, t, s.borrowed[k])
    ensures t.store[s.borrowed[k]] == s.store[s.borrowed[k]].(numCopies := s.store[s.borrowed[k]].numCopies + 1)
    ensures t.borrowed == s.borrowed[..k] + s.borrowed[k + 1..]
    ensures WellFormed(t)
    ensures Valid(s) ==> Valid(t)
  {
    var id := s.borrowed[k];
    // `book_records[book_records.index(book)]` is the object `book` itself.
    var b := s.store[s.catalog[IndexOf(s.catalog, id)]];
    RemoveFirstAt(s.borrowed, id, k);
    DropKeepsRefers(s.store, s.borrowed, k);
    s.(store := s.store[id := b.(numCopies := b.numCopies + 1)], borrowed := RemoveFirst(s.borrowed, id))
  }

  // ---------------------------------------------------------------- restart

  /**
   * `save_data` followed by `load_data` at the next start: the catalog and
   * the borrowed list are pickled to separate files, so each is unpickled
   * into objects of its own. References within one list stay shared; a
   * loan and its catalog entry become two distinct objects with equal
   * fields. The copy of object `x` made for the borrowed list gets the
   * identity `nextId + x`.
   */
  function Reload(s: State): (t: State)
    requires WellFormed(s)
    ensures WellFormed(t)
    ensures t.catalog == s.catalog
    ensures forall id :: id in s.store ==> id in t.store && t.store[id] == s.store[id]
    ensures |t.borrowed| == |s.borrowed|
    ensures forall k :: 0 <= k < |t.borrowed| ==>
      t.borrowed[k] == s.nextId + s.borrowed[k] && t.store[t.borrowed[k]] == s.store[s.borrowed[k]]
  {
    var n := s.nextId;
    var store := map id: Id | id < 2 * n && Reloaded(s.store, n, id) :: ReloadedRecord(s.store, n, id);
    var borrowed: seq<Id> := seq(|s.borrowed|, k requires 0 <= k < |s.borrowed| => n + s.borrowed[k]);
    var t := State(store, s.catalog, borrowed, 2 * n);
    assert forall id :: id in s.store ==> id in store && store[id] == s.store[id];
    assert forall k :: 0 <= k < |borrowed| ==> borrowed[k] in store && store[borrowed[k]] == s.store[s.borrowed[k]] by {
      forall k | 0 <= k < |borrowed| ensures borrowed[k] in store && store[borrowed[k]] == s.store[s.borrowed[k]] {
        assert s.borrowed[k] in s.store;
        assert Reloaded(s.store, n, borrowed[k]);
      }
    }
    t
  }

  /**
   * After a reload every loan is an object outside the catalog; two loans
   * are the same object exactly when they were before; and the catalog
   * still lists no object twice.
   */
  lemma ReloadSeparatesLoans(s: State)
    requires WellFormed(s)
    ensures var t := Reload(s);
      && (forall k :: 0 <= k < |t.borrowed| ==> t.borrowed[k] !in t.catalog)
      && (forall j, k :: 0 <= j < |t.borrowed| && 0 <= k < |t.borrowed| ==>
            (t.borrowed[j] == t.borrowed[k] <==> s.borrowed[j] == s.borrowed[k]))
      && (Valid(s) ==> Valid(t))
  {
    var t := Reload(s);
    forall k | 0 <= k < |t.borrowed| ensures t.borrowed[k] !in t.catalog {
      assert s.nextId <= t.borrowed[k];
    }
  }

  /** Whether `id` names an object after a reload: an original below `n`, a loan's copy from `n` on. */
  predicate Reloaded(store: Store, n: nat, id: Id)
  {
    if id < n then id in store else id - n in store
  }

  /** The record `id` names after a reload. */
  function ReloadedRecord(store: Store, n: nat, id: Id): Book
    requires Reloaded(store, n, id)
  {
    if id < n then store[id] else store[id - n]
  }

  /**
   * After a restart no return gives a copy back: a loan from the earlier
   * run is no longer an object of the catalog, so `book_records.index`
   * raises for it.
   */
  lemma ReturnAfterReload(s: State, isbn: int)
    requires WellFormed(s)
    ensures Return(Reload(s), isbn)
      == Failure(if HasIsbn(s.store, s.borrowed, isbn) then RecordDeleted else NoSuchIsbn)
  {
    var t := Reload(s);
    if HasIsbn(s.store, s.borrowed, isbn) {
      var k :| 0 <= k < |s.borrowed| && s.store[s.borrowed[k]].isbn == isbn;
      assert t.store[t.borrowed[k]].isbn == isbn;
      assert Loan(t, isbn) !in t.catalog;
    } else {
      forall k | 0 <= k < |t.borrowed| ensures t.store[t.borrowed[k]].isbn != isbn {
        assert s.store[s.borrowed[k]].isbn != isbn;
      }
    }
  }

  // ---------------------------------------------------------------- properties

  /**
   * Borrowing a book and returning the same ISBN restores the state, copy
   * count and borrowed list included, as long as no earlier loan carries
   * that ISBN (the return takes the first borrowed record with the ISBN).
   */
  lemma BorrowThenReturn(s: State, isbn: int)
    requires WellFormed(s)
    requires Borrow(s, isbn).Success?
    requires !HasIsbn(s.store, s.borrowed, isbn)
    ensures Return(Borrow(s, isbn).value, isbn) == Success(s)
  {
    var id := Target(s, isbn);
    var b := s.store[id];
    var t := s.(store := s.store[id := b.(numCopies := b.numCopies - 1)], borrowed := s.borrowed + [id]);
    BorrowAt(s, isbn);
    var n := |s.borrowed|;
    NewLoanIsFirstMatch(s, t, id, isbn);
    FirstMatchUnique(t.store, t.borrowed, isbn, n, FindIsbn(t.store, t.borrowed, isbn).value);
    ReturnUndoesTakenCopy(s, t, id, isbn);
    assert t.borrowed[..n] + t.borrowed[n + 1..] == s.borrowed;
  }

  /**
   * Borrowing another copy of a book whose first loan is that same record,
   * then returning the ISBN, restores every record, the catalog and the
   * loans as a multiset. The return drops the earlier loan and keeps the new
   * one, so only the order of the borrowed list differs.
   */
  lemma BorrowAgainThenReturn(s: State, isbn: int)
    requires WellFormed(s)
    requires Borrow(s, isbn).Success?
    requires HasIsbn(s.store, s.borrowed, isbn) && Loan(s, isbn) == Target(s, isbn)
    ensures var r := Return(Borrow(s, isbn).value, isbn);
      && r.Success?
      && r.value.store == s.store
      && r.value.catalog == s.catalog
      && r.value.nextId == s.nextId
      && multiset(r.value.borrowed) == multiset(s.borrowed)
  {
    var id := Target(s, isbn);
    var b := s.store[id];
    var t := s.(store := s.store[id := b.(numCopies := b.numCopies - 1)], borrowed := s.borrowed + [id]);
    BorrowAt(s, isbn);
    var k := FindIsbn(s.store, s.borrowed, isbn).value;
    OldLoanIsFirstMatch(s, t, id, isbn, k);
    assert Loan(t, isbn) == id;
    ReturnUndoesTakenCopy(s, t, id, isbn);
    RemoveEarlierCopy(s.borrowed, id, k);
  }

  /** A return that finds the record a copy was taken from gives that copy back. */
  lemma ReturnUndoesTakenCopy(s: State, t: State, id: Id, isbn: int)
    requires WellFormed(s) && WellFormed(t)
    requires id in s.catalog
    requires t.store == s.store[id := s.store[id].(numCopies := s.store[id].numCopies - 1)]
    requires t.catalog == s.catalog && t.nextId == s.nextId
    requires HasIsbn(t.store, t.borrowed, isbn) && Loan(t, isbn) == id
    ensures Return(t, isbn).Success?
    ensures Return(t, isbn).value.store == s.store
    ensures Return(t, isbn).value.catalog == s.catalog
    ensures Return(t, isbn).value.nextId == s.nextId
  {
  }

  /** The first loan with an ISBN stays the first one when a loan is appended. */
  lemma OldLoanIsFirstMatch(s: State, t: State, id: Id, isbn: int, k: nat)
    requires WellFormed(s) && WellFormed(t)
    requires IsFirstMatch(s.store, s.borrowed, isbn, k)
    requires t.borrowed == s.borrowed + [id] && id in s.store
    requires t.store.Keys == s.store.Keys
    requires forall x :: x in s.store ==> t.store[x].isbn == s.store[x].isbn
    ensures FindIsbn(t.store, t.borrowed, isbn) == Some(k)
  {
    assert IsFirstMatch(t.store, t.borrowed, isbn, k) by {
      forall j | 0 <= j <= k ensures t.borrowed[j] == s.borrowed[j] {}
    }
    FirstMatchUnique(t.store, t.borrowed, isbn, k, FindIsbn(t.store, t.borrowed, isbn).value);
  }

  /** A successful borrow, spelled out. */
  lemma BorrowAt(s: State, isbn: int)
    requires WellFormed(s) && Borrow(s, isbn).Success?
    ensures var id := Target(s, isbn);
      Borrow(s, isbn) == Success(s.(
        store := s.store[id := s.store[id].(numCopies := s.store[id].numCopies - 1)],
        borrowed := s.borrowed + [id]))
  {
  }

  /** A loan appended after loans of other ISBNs is the first borrowed match. */
  lemma NewLoanIsFirstMatch(s: State, t: State, id: Id, isbn: int)
    requires WellFormed(s) && WellFormed(t)
    requires !HasIsbn(s.store, s.borrowed, isbn)
    requires t.borrowed == s.borrowed + [id] && id in s.store && s.store[id].isbn == isbn
    requires t.store.Keys == s.store.Keys
    requires forall x :: x in s.store ==> t.store[x].isbn == s.store[x].isbn
    ensures IsFirstMatch(t.store, t.borrowed, isbn, |s.borrowed|)
  {
  }

  /**
   * A borrow succeeds exactly when the first record with the ISBN is among
   * those `list_available_books` shows.
   */
  lemma BorrowSucceedsIffListed(s: State, isbn: int)
    requires WellFormed(s)
    ensures Borrow(s, isbn).Success? <==>
      HasIsbn(s.store, s.catalog, isbn) && Target(s, isbn) in Available(s.store, s.catalog)
  {
  }

  /**
   * After an update the record is found first under its new ISBN. This
   * rests on the clash test: no other record may carry the new ISBN unless
   * it also carried the old one, and none before the updated record did.
   */
  lemma UpdateThenFind(s: State, isbn: int, e: Edit)
    requires WellFormed(s)
    requires UpdateBook(s, isbn, e).Success?
    ensures var t := UpdateBook(s, isbn, e).value;
      FindIsbn(t.store, t.catalog, e.isbn) == FindIsbn(s.store, s.catalog, isbn)
  {
  }

  /** Re-entering every field unchanged, with an empty copies line, changes nothing. */
  lemma UpdateWithCurrentValues(s: State, isbn: int)
    requires WellFormed(s)
    requires HasIsbn(s.store, s.catalog, isbn)
    ensures var b := s.store[s.catalog[FindIsbn(s.store, s.catalog, isbn).value]];
      var e := Edit(b.isbn, b.title, b.publisher, b.language, None, b.availability);
      AddAccepted(b) ==> UpdateBook(s, isbn, e) == Success(s)
  {
    var i := FindIsbn(s.store, s.catalog, isbn).value;
    var b := s.store[s.catalog[i]];
    assert Edited(b, Edit(b.isbn, b.title, b.publisher, b.language, None, b.availability)) == b;
    assert s.store[s.catalog[i] := b] == s.store;
  }

  /**
   * `add_book` does not check for duplicates, so a second record with an
   * ISBN already in the catalog is accepted.
   */
  lemma AddAcceptsDuplicateIsbn(s: State, b: Book)
    requires WellFormed(s) && AddAccepted(b)
    requires HasIsbn(s.store, s.catalog, b.isbn)
    ensures AddBook(s, b).Success?
    ensures var t := AddBook(s, b).value;
      |t.catalog| == |s.catalog| + 1 && t.store[t.catalog[|s.catalog|]] == b
  {
  }

  /**
   * Adding a book with a fresh ISBN and then deleting that ISBN gives back
   * the catalog, the borrowed list and every record as before.
   */
  lemma AddThenDelete(s: State, b: Book)
    requires WellFormed(s) && AddAccepted(b)
    requires !HasIsbn(s.store, s.catalog, b.isbn)
    ensures var t := AddBook(s, b).value;
      && DeleteBook(t, b.isbn).Success?
      && DeleteBook(t, b.isbn).value.catalog == s.catalog
      && DeleteBook(t, b.isbn).value.borrowed == s.borrowed
      && forall id :: id in s.store ==> id in DeleteBook(t, b.isbn).value.store && DeleteBook(t, b.isbn).value.store[id] == s.store[id]
  {
  }
}
