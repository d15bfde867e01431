/**
 * The two in-place catalog sorts: `bubble_sort_books_by_publisher`
 * (ascending by publisher, swapping only on a strict `>`) and
 * `insertion_sort_books_by_copies` (descending by copy count, shifting
 * only on a strict `>`). Both reorder references to the catalog's records;
 * the records themselves are untouched.
 */
module Sorting {
  import opened Books
  import Lex

  /** A value of one of the two sort keys. */
  datatype SortKey = Publisher(name: string) | Copies(count: int)

  predicate HasKey(b: Book, k: SortKey)
  {
    match k
    case Publisher(name) => b.publisher == name
    case Copies(count) => b.numCopies == count
  }

  /** The references in `ids` whose record carries key `k`, in their order in `ids`. */
  function WithKey(store: Store, ids: seq<Id>, k: SortKey): (r: seq<Id>)
    requires Refers(store, ids)
    ensures |r| <= |ids|
  {
    if |ids| == 0 then []
    else (if HasKey(store[ids[0]], k) then [ids[0]] else []) + WithKey(store, ids[1..], k)
  }

  predicate SortedByPublisher(store: Store, ids: seq<Id>)
    requires Refers(store, ids)
  {
    forall p, q :: 0 <= p < q < |ids| ==> Lex.AtMost(store[ids[p]].publisher, store[ids[q]].publisher)
  }

  /** Records with equal publishers appear in `after` in the order they had in `before`. */
  ghost predicate StableByPublisher(store: Store, before: seq<Id>, after: seq<Id>)
    requires Refers(store, before) && Refers(store, after)
  {
    forall name: string :: WithKey(store, after, Publisher(name)) == WithKey(store, before, Publisher(name))
  }

  predicate SortedByCopiesDescending(store: Store, ids: seq<Id>)
    requires Refers(store, ids)
  {
    forall p, q :: 0 <= p < q < |ids| ==> store[ids[p]].numCopies >= store[ids[q]].numCopies
  }

  /** Records with equal copy counts appear in `after` in the order they had in `before`. */
  ghost predicate StableByCopies(store: Store, before: seq<Id>, after: seq<Id>)
    requires Refers(store, before) && Refers(store, after)
  {
    forall count: int :: WithKey(store, after, Copies(count)) == WithKey(store, before, Copies(count))
  }

  /** `s[j], s[j+1] = s[j+1], s[j]` */
  function Swap<T>(s: seq<T>, j: nat): (t: seq<T>)
    requires j + 1 < |s|
    ensures |t| == |s| && t[j] == s[j + 1] && t[j + 1] == s[j]
    ensures forall k :: 0 <= k < |s| && k != j && k != j + 1 ==> t[k] == s[k]
    ensures multiset(t) == multiset(s)
  {
    var t := s[..j] + [s[j + 1], s[j]] + s[j + 2..];
    assert s == s[..j] + [s[j], s[j + 1]] + s[j + 2..];
    t
  }

  lemma {:induction false} WithKeyAppend(store: Store, a: seq<Id>, b: seq<Id>, k: SortKey)
    requires Refers(store, a) && Refers(store, b)
    ensures WithKey(store, a + b, k) == WithKey(store, a, k) + WithKey(store, b, k)
    decreases |a|
  {
    if |a| == 0 {
      assert a + b == b;
    } else {
      assert (a + b)[1..] == a[1..] + b;
      WithKeyAppend(store, a[1..], b, k);
    }
  }

  /** Exchanging two neighbours that do not both carry `k` keeps the `k`-records in order. */
  lemma SwapKeepsWithKey(store: Store, s: seq<Id>, j: nat, k: SortKey)
    requires Refers(store, s) && j + 1 < |s|
    requires !(HasKey(store[s[j]], k) && HasKey(store[s[j + 1]], k))
    ensures Refers(store, Swap(s, j))
    ensures WithKey(store, Swap(s, j), k) == WithKey(store, s, k)
  {
    var a, x, y, b := s[..j], s[j], s[j + 1], s[j + 2..];
    assert WithKey(store, [x, y], k) == WithKey(store, [y, x], k) by {
      assert [x, y][1..] == [y] && [y, x][1..] == [x];
    }
    calc {
      WithKey(store, Swap(s, j), k);
      { assert Swap(s, j) == (a + [y, x]) + b; }
      WithKey(store, (a + [y, x]) + b, k);
      { WithKeyAppend(store, a + [y, x], b, k); WithKeyAppend(store, a, [y, x], k); }
      WithKey(store, a, k) + WithKey(store, [y, x], k) + WithKey(store, b, k);
      WithKey(store, a, k) + WithKey(store, [x, y], k) + WithKey(store, b, k);
      { WithKeyAppend(store, a + [x, y], b, k); WithKeyAppend(store, a, [x, y], k); }
      WithKey(store, (a + [x, y]) + b, k);
      { assert s == (a + [x, y]) + b; }
      WithKey(store, s, k);
    }
  }

  /**
   * `bubble_sort_books_by_publisher`: `n` passes over a shrinking prefix;
   * after pass `i` the last `i + 1` places hold the largest publishers, in order.
   */
  method BubbleSortByPublisher(store: Store, books: seq<Id>) returns (r: seq<Id>)
    requires Refers(store, books)
    ensures Refers(store, r)
    ensures multiset(r) == multiset(books)
    ensures SortedByPublisher(store, r)
    ensures StableByPublisher(store, books, r)
  {
    r := books;
    var n := |r|;
    for i := 0 to n
      invariant |r| == n
      invariant Refers(store, r)
      invariant multiset(r) == multiset(books)
      invariant StableByPublisher(store, books, r)
      invariant SettledFrom(store, r, n - i)
    {
      r := BubblePass(store, r, n - i);
    }
  }

  /**
   * The places from `m` on hold publishers in order, none of them before
   * a publisher in the places ahead of `m`.
   */
  predicate SettledFrom(store: Store, s: seq<Id>, m: nat)
    requires Refers(store, s)
  {
    && (forall p, q :: m <= p < q < |s| ==> Lex.AtMost(store[s[p]].publisher, store[s[q]].publisher))
    && (forall p, q :: 0 <= p < m <= q < |s| ==> Lex.AtMost(store[s[p]].publisher, store[s[q]].publisher))
  }

  /**
   * One pass of the outer loop over the unsettled places `0 .. m - 1`:
   * neighbours are exchanged when the left publisher is greater, which
   * carries the largest publisher to place `m - 1`.
   */
  method BubblePass(store: Store, books: seq<Id>, m: nat) returns (r: seq<Id>)
    requires Refers(store, books) && 0 < m <= |books|
    requires SettledFrom(store, books, m)
    ensures |r| == |books| && Refers(store, r)
    ensures multiset(r) == multiset(books)
    ensures StableByPublisher(store, books, r)
    ensures SettledFrom(store, r, m - 1)
  {
    r := books;
    for j := 0 to m - 1
      invariant |r| == |books|
      invariant Refers(store, r)
      invariant multiset(r) == multiset(books)
      invariant StableByPublisher(store, books, r)
      invariant SettledFrom(store, r, m)
      invariant forall p :: 0 <= p < j ==> Lex.AtMost(store[r[p]].publisher, store[r[j]].publisher)
    {
      if Lex.Less(store[r[j + 1]].publisher, store[r[j]].publisher) {
        ExchangeStep(store, books, r, m, j);
        r := Swap(r, j);
      } else {
        forall p | 0 <= p < j
          ensures Lex.AtMost(store[r[p]].publisher, store[r[j + 1]].publisher)
        {
          Lex.AtMostTransitive(store[r[p]].publisher, store[r[j]].publisher, store[r[j + 1]].publisher);
        }
      }
    }
  }

  /**
   * Exchanging a neighbour pair whose left publisher is greater keeps the
   * list a permutation, keeps equal publishers in order, and carries the
   * largest publisher seen so far one place right.
   */
  lemma ExchangeStep(store: Store, books: seq<Id>, s: seq<Id>, m: nat, j: nat)
    requires Refers(store, books) && Refers(store, s) && j + 1 < m <= |s|
    requires multiset(s) == multiset(books) && StableByPublisher(store, books, s)
    requires SettledFrom(store, s, m)
    requires forall p :: 0 <= p < j ==> Lex.AtMost(store[s[p]].publisher, store[s[j]].publisher)
    requires Lex.Less(store[s[j + 1]].publisher, store[s[j]].publisher)
    ensures Refers(store, Swap(s, j))
    ensures multiset(Swap(s, j)) == multiset(books) && StableByPublisher(store, books, Swap(s, j))
    ensures SettledFrom(store, Swap(s, j), m)
    ensures forall p :: 0 <= p < j + 1 ==>
      Lex.AtMost(store[Swap(s, j)[p]].publisher, store[Swap(s, j)[j + 1]].publisher)
  {
    Lex.LessIrreflexive(store[s[j]].publisher);
    Lex.LessAsymmetric(store[s[j + 1]].publisher, store[s[j]].publisher);
    forall name: string
      ensures WithKey(store, Swap(s, j), Publisher(name)) == WithKey(store, s, Publisher(name))
    {
      SwapKeepsWithKey(store, s, j, Publisher(name));
    }
  }

  /**
   * `insertion_sort_books_by_copies`: each record in turn is moved left
   * past the records before it that have fewer copies.
   */
  method InsertionSortByCopies(store: Store, books: seq<Id>) returns (r: seq<Id>)
    requires Refers(store, books)
    ensures Refers(store, r)
    ensures multiset(r) == multiset(books)
    ensures SortedByCopiesDescending(store, r)
    ensures StableByCopies(store, books, r)
  {
    r := books;
    var i := 1;
    while i < |r|
      invariant 1 <= i
      invariant |r| == 0 || i <= |r|
      invariant |r| == |books|
      invariant Refers(store, r)
      invariant multiset(r) == multiset(books)
      invariant StableByCopies(store, books, r)
      invariant forall p, q :: 0 <= p < q < i && q < |r| ==>
        store[r[p]].numCopies >= store[r[q]].numCopies
    {
      r := InsertByCopies(store, r, i);
      i := i + 1;
    }
  }

  /**
   * Within the first `i + 1` places the records other than the one at `g`
   * are in descending copy order, and the record at `g` has more copies
   * than every record after it.
   */
  predicate GapOrdered(store: Store, s: seq<Id>, i: nat, g: nat)
    requires Refers(store, s) && i < |s|
  {
    && (forall p, q :: 0 <= p < q <= i && p != g && q != g ==> store[s[p]].numCopies >= store[s[q]].numCopies)
    && (forall q :: g < q <= i ==> store[s[g]].numCopies > store[s[q]].numCopies)
  }

  /**
   * One pass of the outer loop: `key = books[i]` is lifted out and the
   * records before it with fewer copies are shifted one place right. The
   * ghost sequence `L` is the list as it would read with `key` already
   * standing in the gap at `j + 1`.
   */
  method InsertByCopies(store: Store, books: seq<Id>, i: nat) returns (r: seq<Id>)
    requires Refers(store, books) && 0 < i < |books|
    requires forall p, q :: 0 <= p < q < i ==> store[books[p]].numCopies >= store[books[q]].numCopies
    ensures |r| == |books| && Refers(store, r)
    ensures multiset(r) == multiset(books)
    ensures StableByCopies(store, books, r)
    ensures forall p, q :: 0 <= p < q <= i ==> store[r[p]].numCopies >= store[r[q]].numCopies
  {
    r := books;
    var key := r[i];
    var j := i - 1;
    ghost var L := r;
    assert L == r[j + 1 := key];
    while j >= 0 && store[key].numCopies > store[r[j]].numCopies
      invariant -1 <= j < i
      invariant |r| == |L| == |books|
      invariant L == r[j + 1 := key]
      invariant Refers(store, r) && Refers(store, L)
      invariant multiset(L) == multiset(books)
      invariant StableByCopies(store, books, L)
      invariant GapOrdered(store, L, i, j + 1)
      decreases j
    {
      assert L[j] == r[j] && L[j + 1] == key;
      ShiftStep(store, books, L, i, j);
      L := Swap(L, j);
      r := r[j + 1 := r[j]];
      j := j - 1;
    }
    r := r[j + 1 := key];
    assert r == L;
    GapClosed(store, L, i, j);
  }

  /**
   * Moving the gap one place left, past a record with fewer copies, keeps
   * the list a permutation, keeps equal counts in order and keeps the order
   * around the gap.
   */
  lemma ShiftStep(store: Store, books: seq<Id>, s: seq<Id>, i: nat, j: nat)
    requires Refers(store, books) && Refers(store, s) && j < i < |s|
    requires multiset(s) == multiset(books) && StableByCopies(store, books, s)
    requires GapOrdered(store, s, i, j + 1)
    requires store[s[j + 1]].numCopies > store[s[j]].numCopies
    ensures Refers(store, Swap(s, j))
    ensures multiset(Swap(s, j)) == multiset(books) && StableByCopies(store, books, Swap(s, j))
    ensures GapOrdered(store, Swap(s, j), i, j)
  {
    forall count: int
      ensures WithKey(store, Swap(s, j), Copies(count)) == WithKey(store, s, Copies(count))
    {
      SwapKeepsWithKey(store, s, j, Copies(count));
    }
  }

  /** The record dropped into the gap fits between its neighbours, so the prefix is ordered. */
  lemma GapClosed(store: Store, s: seq<Id>, i: nat, j: int)
    requires Refers(store, s) && -1 <= j < i < |s|
    requires GapOrdered(store, s, i, j + 1)
    requires j < 0 || store[s[j + 1]].numCopies <= store[s[j]].numCopies
    ensures forall p, q :: 0 <= p < q <= i ==> store[s[p]].numCopies >= store[s[q]].numCopies
  {
  }
}
