/**
 * The `Book` record and the object identities the catalog and the
 * borrowed list share. In the Python program both lists hold references
 * to the same mutable `Book` objects; here every object has an `Id` and a
 * `Store` maps identities to the record's current field values, so a
 * change made through one list is seen through the other.
 */
module Books {
  import opened Wrappers

  type Id = nat

  datatype Book = Book(
    isbn: int,
    title: string,
    publisher: string,
    language: string,
    numCopies: int,
    availability: bool)

  /** The live `Book` objects, by identity. */
  type Store = map<Id, Book>

  /** Every reference in `ids` names a live object. */
  predicate Refers(store: Store, ids: seq<Id>)
  {
    forall id :: id in ids ==> id in store
  }

  /** The borrowing condition: `book.num_copies > 0 and book.availability`. */
  predicate Borrowable(b: Book)
  {
    b.numCopies > 0 && b.availability
  }

  /** Some record referenced from `ids` carries `isbn`. */
  predicate HasIsbn(store: Store, ids: seq<Id>, isbn: int)
    requires Refers(store, ids)
  {
    exists k :: 0 <= k < |ids| && store[ids[k]].isbn == isbn
  }

  /** Position `i` is where a `for book in ...: if book.isbn == isbn` scan stops. */
  predicate IsFirstMatch(store: Store, ids: seq<Id>, isbn: int, i: int)
    requires Refers(store, ids)
  {
    && 0 <= i < |ids|
    && store[ids[i]].isbn == isbn
    && forall k :: 0 <= k < i ==> store[ids[k]].isbn != isbn
  }

  /** The linear scan for the first record with a given ISBN. */
  function FindIsbn(store: Store, ids: seq<Id>, isbn: int): (r: Option<nat>)
    requires Refers(store, ids)
    ensures r.Some? ==> IsFirstMatch(store, ids, isbn, r.value)
    ensures r.None? <==> !HasIsbn(store, ids, isbn)
  {
    if |ids| == 0 then None
    else if store[ids[0]].isbn == isbn then Some(0)
    else
      match FindIsbn(store, ids[1..], isbn)
      case None => None
      case Some(i) => Some(i + 1)
  }

  /**
   * The object found first by ISBN also occurs nowhere earlier, so
   * `list.remove` and `list.index` applied to it act on the same position.
   */
  lemma FirstMatchIsFirstOccurrence(store: Store, ids: seq<Id>, isbn: int, i: int)
    requires Refers(store, ids) && IsFirstMatch(store, ids, isbn, i)
    ensures forall k :: 0 <= k < i ==> ids[k] != ids[i]
  {
  }

  /** Dropping one reference leaves references that all resolve. */
  lemma DropKeepsRefers(store: Store, ids: seq<Id>, k: nat)
    requires Refers(store, ids) && k < |ids|
    ensures Refers(store, ids[..k] + ids[k + 1..])
  {
    forall x | x in ids[..k] + ids[k + 1..] ensures x in store {
      assert x in ids[..k] || x in ids[k + 1..];
    }
  }

  /** A scan stops at one place only. */
  lemma FirstMatchUnique(store: Store, ids: seq<Id>, isbn: int, i: int, j: int)
    requires Refers(store, ids)
    requires IsFirstMatch(store, ids, isbn, i) && IsFirstMatch(store, ids, isbn, j)
    ensures i == j
  {
  }

  /** `list_available_books`: the borrowable records, in catalog order. */
  function Available(store: Store, ids: seq<Id>): (r: seq<Id>)
    requires Refers(store, ids)
    ensures forall id :: id in r <==> id in ids && Borrowable(store[id])
    ensures |r| <= |ids|
  {
    if |ids| == 0 then []
    else (if Borrowable(store[ids[0]]) then [ids[0]] else []) + Available(store, ids[1..])
  }

  /**
   * Listing two parts of the catalog one after the other gives the listing
   * of the whole: the listing keeps the catalog's order.
   */
  lemma {:induction false} AvailableAppend(store: Store, a: seq<Id>, b: seq<Id>)
    requires Refers(store, a) && Refers(store, b)
    ensures Refers(store, a + b)
    ensures Available(store, a + b) == Available(store, a) + Available(store, b)
  {
    if |a| == 0 {
      assert a + b == b;
    } else {
      var head := if Borrowable(store[a[0]]) then [a[0]] else [];
      assert (a + b)[1..] == a[1..] + b;
      calc {
        Available(store, a + b);
        head + Available(store, a[1..] + b);
        { AvailableAppend(store, a[1..], b); }
        head + (Available(store, a[1..]) + Available(store, b));
        (head + Available(store, a[1..])) + Available(store, b);
        Available(store, a) + Available(store, b);
      }
    }
  }
}
