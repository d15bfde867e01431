/**
 * The menu loop of `main` after a successful login: one numbered choice
 * is dispatched against the library state. Choices 2, 3 and 4 (add,
 * update, delete) are carried out only for the identity `admin`.
 */
module Session {
  import opened Wrappers
  import opened Books
  import opened Library
  import opened Accounts
  import Sorting

  /** A menu choice, with the validated input its handler reads. */
  datatype Command =
    | Display                               // "1"
    | Add(book: Book)                       // "2"
    | Update(isbn: int, edit: Edit)         // "3"
    | Delete(isbn: int)                     // "4"
    | BorrowBook(isbn: int)                 // "5"
    | ReturnBook(isbn: int)                 // "6"
    | SortByPublisher                       // "7"
    | SortByCopies                          // "8"
    | Quit                                  // "9"
    | Unrecognised(choice: string)          // anything else

  /**
   * How a choice ended. `Finished` is choice 9; `Crashed` is the uncaught
   * `ValueError` of a return whose record left the catalog, which ends the
   * program as well.
   */
  datatype Status = Done | Denied | Failed(error: Error) | Invalid | Finished | Crashed

  /** The choices that change the catalog's records. */
  predicate AdminOnly(c: Command)
  {
    c.Add? || c.Update? || c.Delete?
  }

  /**
   * What a user other than `admin` cannot change: the set of catalog
   * entries, the set of objects and every field of a record except its
   * copy count.
   */
  predicate RecordsKept(s: State, t: State)
  {
    && multiset(t.catalog) == multiset(s.catalog)
    && t.store.Keys == s.store.Keys
    && t.nextId == s.nextId
    && forall id :: id in s.store ==> t.store[id] == s.store[id].(numCopies := t.store[id].numCopies)
  }

  /**
   * A handler's outcome as the loop sees it: on failure the state stays as
   * it was, and `RecordDeleted` stands for an exception nothing catches.
   */
  function Settle(s: State, r: Result<State, Error>): (State, Status)
  {
    match r
    case Success(t) => (t, Done)
    case Failure(RecordDeleted) => (s, Crashed)
    case Failure(e) => (s, Failed(e))
  }

  /**
   * What one pass of the menu loop does with choice `c` from state `s`:
   * the dispatch of main2.py:360-389, with each handler's outcome settled
   * and each sort's result pinned by order, stability and permutation.
   */
  ghost predicate Transition(user: string, s: State, c: Command, t: State, status: Status)
  {
    && WellFormed(s)
    && WellFormed(t)
    && (Valid(s) ==> Valid(t))
    && (user != Admin ==> RecordsKept(s, t))
    && (status != Done ==> t == s)
    && (status.Crashed? <==> c.ReturnBook? && Return(s, c.isbn) == Failure(RecordDeleted))
    && (status == Denied <==> AdminOnly(c) && user != Admin)
    && (status.Finished? <==> c.Quit?)
    && (c.Display? || c.Quit? || c.Unrecognised? ==> t == s)
    && (c.Display? ==> status == Done)
    && (c.Unrecognised? ==> status == Invalid)
    && (AdminOnly(c) && user == Admin ==> (t, status) == Settle(s, CatalogHandler(s, c)))
    && (AdminOnly(c) && user != Admin ==> t == s)
    && (c.BorrowBook? ==> (t, status) == Settle(s, Borrow(s, c.isbn)))
    && (c.ReturnBook? ==> (t, status) == Settle(s, Return(s, c.isbn)))
    && (c.SortByPublisher? ==>
      && status == Done
      && t == s.(catalog := t.catalog)
      && multiset(t.catalog) == multiset(s.catalog)
      && Sorting.SortedByPublisher(t.store, t.catalog)
      && Sorting.StableByPublisher(t.store, s.catalog, t.catalog))
    && (c.SortByCopies? ==>
      && status == Done
      && t == s.(catalog := t.catalog)
      && multiset(t.catalog) == multiset(s.catalog)
      && Sorting.SortedByCopiesDescending(t.store, t.catalog)
      && Sorting.StableByCopies(t.store, s.catalog, t.catalog))
  }

  /**
   * `trace` and `ends` record the first `|ends|` choices of `cmds`: the
   * state before each choice and after the last, and how each ended.
   */
  ghost predicate Traced(user: string, cmds: seq<Command>, trace: seq<State>, ends: seq<Status>)
  {
    && |ends| <= |cmds|
    && |trace| == |ends| + 1
    && forall k {:trigger Transition(user, trace[k], cmds[k], trace[k + 1], ends[k])} ::
         0 <= k < |ends| ==> Transition(user, trace[k], cmds[k], trace[k + 1], ends[k])
  }

  /** A record of `n` choices extends by the transition of choice `n`. */
  lemma TracedExtend(user: string, cmds: seq<Command>, trace: seq<State>, ends: seq<Status>, t: State, status: Status)
    requires Traced(user, cmds, trace, ends) && |ends| < |cmds|
    requires Transition(user, trace[|ends|], cmds[|ends|], t, status)
    ensures Traced(user, cmds, trace + [t], ends + [status])
  {
    var trace', ends' := trace + [t], ends + [status];
    forall k | 0 <= k < |ends'|
      ensures Transition(user, trace'[k], cmds[k], trace'[k + 1], ends'[k])
    {
      if k < |ends| {
        assert trace'[k] == trace[k] && trace'[k + 1] == trace[k + 1] && ends'[k] == ends[k];
      }
    }
  }

  /**
   * Along a record of choices, validity and (for a user other than
   * `admin`) the catalog's records are kept from the first state to each
   * later one.
   */
  lemma {:induction false} TracedKeeps(user: string, cmds: seq<Command>, trace: seq<State>, ends: seq<Status>, n: nat)
    requires Traced(user, cmds, trace, ends) && n <= |ends|
    ensures Valid(trace[0]) ==> Valid(trace[n])
    ensures user != Admin ==> RecordsKept(trace[0], trace[n])
    decreases n
  {
    if n > 0 {
      var m := n - 1;
      TracedKeeps(user, cmds, trace, ends, m);
      assert Transition(user, trace[m], cmds[m], trace[m + 1], ends[m]);
    }
  }

  /**
   * When no choice before the last ended the program, none of them was
   * choice 9, the last was choice 9 exactly when it finished the session,
   * and it raised only as a return whose record left the catalog.
   */
  lemma TracedStops(user: string, cmds: seq<Command>, trace: seq<State>, ends: seq<Status>)
    requires Traced(user, cmds, trace, ends) && 0 < |ends| && WellFormed(trace[|ends|])
    requires forall k :: 0 <= k < |ends| - 1 ==> !ends[k].Finished? && !ends[k].Crashed?
    ensures forall k :: 0 <= k < |ends| - 1 ==> cmds[k] != Quit
    ensures ends[|ends| - 1].Finished? <==> cmds[|ends| - 1] == Quit
    ensures ends[|ends| - 1].Crashed? ==>
      && cmds[|ends| - 1].ReturnBook?
      && Return(trace[|ends|], cmds[|ends| - 1].isbn) == Failure(RecordDeleted)
  {
    forall k | 0 <= k < |ends| - 1
      ensures cmds[k] != Quit
    {
      assert Transition(user, trace[k], cmds[k], trace[k + 1], ends[k]);
    }
    var n := |ends| - 1;
    assert Transition(user, trace[n], cmds[n], trace[n + 1], ends[n]);
  }

  /** One pass of the menu loop of `main` for the logged-in `user`. */
  method Step(user: string, s: State, c: Command) returns (t: State, status: Status)
    requires WellFormed(s)
    ensures WellFormed(t)
    ensures Valid(s) ==> Valid(t)
    ensures status == Denied <==> AdminOnly(c) && user != Admin
    ensures status.Finished? <==> c.Quit?
    ensures status.Crashed? <==> c.ReturnBook? && Return(s, c.isbn) == Failure(RecordDeleted)
    ensures status != Done ==> t == s
    ensures t.store.Keys >= s.store.Keys
    ensures c.Display? || c.Quit? || c.Unrecognised? ==> t == s
    ensures user != Admin ==> RecordsKept(s, t)
    ensures AdminOnly(c) && user == Admin ==> (t, status) == Settle(s, CatalogHandler(s, c))
    ensures c.BorrowBook? ==> (t, status) == Settle(s, Borrow(s, c.isbn))
    ensures c.ReturnBook? ==> (t, status) == Settle(s, Return(s, c.isbn))
    ensures c.SortByPublisher? ==>
      && status == Done
      && t == s.(catalog := t.catalog)
      && multiset(t.catalog) == multiset(s.catalog)
      && Sorting.SortedByPublisher(t.store, t.catalog)
      && Sorting.StableByPublisher(t.store, s.catalog, t.catalog)
    ensures c.SortByCopies? ==>
      && status == Done
      && t == s.(catalog := t.catalog)
      && multiset(t.catalog) == multiset(s.catalog)
      && Sorting.SortedByCopiesDescending(t.store, t.catalog)
      && Sorting.StableByCopies(t.store, s.catalog, t.catalog)
    ensures Transition(user, s, c, t, status)
  {
    if AdminOnly(c) {
      if user == Admin {
        t, status := Manage(s, c);
      } else {
        t, status := s, Denied;
      }
    } else if c.BorrowBook? || c.ReturnBook? {
      t, status := Lend(s, c);
    } else if c.SortByPublisher? || c.SortByCopies? {
      t, status := Reorder(s, c);
    } else if c.Quit? {
      t, status := s, Finished;
    } else if c.Display? {
      t, status := s, Done;
    } else {
      t, status := s, Invalid;
    }
  }

  /** The handler behind choices 2, 3 and 4; no other choice reaches one. */
  function CatalogHandler(s: State, c: Command): Result<State, Error>
    requires WellFormed(s)
  {
    match c
    case Add(b) => AddBook(s, b)
    case Update(isbn, e) => UpdateBook(s, isbn, e)
    case Delete(isbn) => DeleteBook(s, isbn)
    case _ => Failure(InputRejected)
  }

  /** Choices 2, 3 and 4 for `admin`: run the handler; none of them raises. */
  method Manage(s: State, c: Command) returns (t: State, status: Status)
    requires WellFormed(s) && AdminOnly(c)
    ensures (t, status) == Settle(s, CatalogHandler(s, c))
    ensures status == Done || (status.Failed? && t == s)
    ensures WellFormed(t)
    ensures Valid(s) ==> Valid(t)
    ensures t.store.Keys >= s.store.Keys
  {
    var out := Settle(s, CatalogHandler(s, c));
    t, status := out.0, out.1;
  }

  /**
   * Choices 5 and 6: borrow or return. Only copy counts and the borrowed
   * list can change.
   */
  method Lend(s: State, c: Command) returns (t: State, status: Status)
    requires WellFormed(s) && (c.BorrowBook? || c.ReturnBook?)
    ensures c.BorrowBook? ==> (t, status) == Settle(s, Borrow(s, c.isbn))
    ensures c.ReturnBook? ==> (t, status) == Settle(s, Return(s, c.isbn))
    ensures status.Crashed? <==> c.ReturnBook? && Return(s, c.isbn) == Failure(RecordDeleted)
    ensures status == Done || ((status.Failed? || status.Crashed?) && t == s)
    ensures WellFormed(t)
    ensures Valid(s) ==> Valid(t)
    ensures RecordsKept(s, t)
  {
    var out := Settle(s, if c.BorrowBook? then Borrow(s, c.isbn) else Return(s, c.isbn));
    t, status := out.0, out.1;
  }

  /** Choices 7 and 8: the catalog is sorted in place; nothing else changes. */
  method Reorder(s: State, c: Command) returns (t: State, status: Status)
    requires WellFormed(s) && (c.SortByPublisher? || c.SortByCopies?)
    ensures status == Done
    ensures t == s.(catalog := t.catalog)
    ensures WellFormed(t)
    ensures Valid(s) ==> Valid(t)
    ensures multiset(t.catalog) == multiset(s.catalog)
    ensures c.SortByPublisher? ==>
      && Sorting.SortedByPublisher(t.store, t.catalog)
      && Sorting.StableByPublisher(t.store, s.catalog, t.catalog)
    ensures c.SortByCopies? ==>
      && Sorting.SortedByCopiesDescending(t.store, t.catalog)
      && Sorting.StableByCopies(t.store, s.catalog, t.catalog)
  {
    var sorted;
    if c.SortByPublisher? {
      sorted := Sorting.BubbleSortByPublisher(s.store, s.catalog);
    } else {
      sorted := Sorting.InsertionSortByCopies(s.store, s.catalog);
    }
    t, status := s.(catalog := sorted), Done;
    SortKeepsValid(s, sorted);
  }

  /** Reordering the catalog keeps every invariant of the state. */
  lemma SortKeepsValid(s: State, sorted: seq<Id>)
    requires WellFormed(s) && multiset(sorted) == multiset(s.catalog)
    ensures WellFormed(s.(catalog := sorted))
    ensures Valid(s) ==> Valid(s.(catalog := sorted))
  {
    forall id | id in sorted ensures id in s.store {
      assert id in multiset(sorted);
    }
  }

  /** One pass of the loop on choice `n`, recorded as `Transition` number `n`. */
  method Advance(user: string, cmds: seq<Command>, n: nat, s: State, ghost trace: seq<State>, ghost ends: seq<Status>)
    returns (t: State, status: Status, ghost trace': seq<State>, ghost ends': seq<Status>)
    requires WellFormed(s) && Traced(user, cmds, trace, ends) && n == |ends| < |cmds| && trace[n] == s
    ensures WellFormed(t)
    ensures Traced(user, cmds, trace', ends') && trace' == trace + [t] && ends' == ends + [status]
  {
    t, status := Step(user, s, cmds[n]);
    TracedExtend(user, cmds, trace, ends, t, status);
    trace', ends' := trace + [t], ends + [status];
  }

  /**
   * The `while True` loop of `main`: the choices are taken in order until
   * choice 9 ends the session or a return raises; `taken` is how many were
   * read and `last` is how the last of them ended (`Done` when none was).
   * `trace` holds the state before each choice and after the last one, and
   * `ends` how each choice ended: every choice read is one `Transition`,
   * and none before the last ended the program.
   */
  method Run(user: string, s: State, cmds: seq<Command>)
    returns (t: State, taken: nat, last: Status, ghost trace: seq<State>, ghost ends: seq<Status>)
    requires WellFormed(s)
    ensures WellFormed(t)
    ensures Valid(s) ==> Valid(t)
    ensures taken <= |cmds|
    ensures forall k :: 0 <= k < taken - 1 ==> cmds[k] != Quit
    ensures taken < |cmds| ==> last.Finished? || last.Crashed?
    ensures last.Finished? <==> 0 < taken && cmds[taken - 1] == Quit
    ensures last.Crashed? ==>
      && 0 < taken
      && cmds[taken - 1].ReturnBook?
      && Return(t, cmds[taken - 1].isbn) == Failure(RecordDeleted)
    ensures Quit in cmds && !last.Crashed? ==> 0 < taken && cmds[taken - 1] == Quit
    ensures user != Admin ==> RecordsKept(s, t)
    ensures Traced(user, cmds, trace, ends) && |ends| == taken
    ensures trace[0] == s && trace[taken] == t
    ensures last == if taken == 0 then Done else ends[taken - 1]
    ensures forall k :: 0 <= k < taken - 1 ==> !ends[k].Finished? && !ends[k].Crashed?
  {
    t, taken, last := s, 0, Done;
    trace, ends := [s], [];
    while taken < |cmds| && !last.Finished? && !last.Crashed?
      invariant taken <= |cmds|
      invariant Traced(user, cmds, trace, ends) && |ends| == taken
      invariant trace[0] == s && trace[taken] == t
      invariant last == if taken == 0 then Done else ends[taken - 1]
      invariant forall k :: 0 <= k < taken - 1 ==> !ends[k].Finished? && !ends[k].Crashed?
      invariant WellFormed(t)
    {
      t, last, trace, ends := Advance(user, cmds, taken, t, trace, ends);
      taken := taken + 1;
    }
    TracedKeeps(user, cmds, trace, ends, taken);
    if 0 < taken {
      TracedStops(user, cmds, trace, ends);
    }
  }
}
