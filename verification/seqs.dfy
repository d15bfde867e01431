/** The two Python list primitives the library leans on, over Dafny sequences. */
module Seqs {

  /** `s.index(x)`: the position of the first occurrence of `x`. */
  function IndexOf<T(==)>(s: seq<T>, x: T): (i: nat)
    requires x in s
    ensures i < |s| && s[i] == x
    ensures forall k :: 0 <= k < i ==> s[k] != x
  {
    if s[0] == x then 0 else 1 + IndexOf(s[1..], x)
  }

  /** `s.remove(x)`: drops one occurrence of `x` and nothing else. */
  function RemoveFirst<T(==)>(s: seq<T>, x: T): (r: seq<T>)
    requires x in s
    ensures multiset(r) + multiset{x} == multiset(s)
  {
    if s[0] == x then
      assert s == [s[0]] + s[1..];
      s[1..]
    else
      var rest := RemoveFirst(s[1..], x);
      assert s == [s[0]] + s[1..];
      assert multiset([s[0]] + rest) == multiset{s[0]} + multiset(rest);
      [s[0]] + rest
  }

  /** The occurrence `remove` drops is the first one, and the rest keep their order. */
  lemma {:induction false} RemoveFirstAt<T>(s: seq<T>, x: T, i: nat)
    requires i < |s| && s[i] == x
    requires forall k :: 0 <= k < i ==> s[k] != x
    ensures RemoveFirst(s, x) == s[..i] + s[i + 1..]
  {
    if i == 0 {
      assert RemoveFirst(s, x) == s[1..];
      assert s[..0] + s[1..] == s[1..];
    } else {
      var t := s[1..];
      calc {
        RemoveFirst(s, x);
        [s[0]] + RemoveFirst(t, x);
        { RemoveFirstAt(t, x, i - 1); }
        [s[0]] + (t[..i - 1] + t[i..]);
        ([s[0]] + t[..i - 1]) + t[i..];
        { assert s[..i] == [s[0]] + t[..i - 1]; assert s[i + 1..] == t[i..]; }
        s[..i] + s[i + 1..];
      }
    }
  }

  /**
   * Appending `x` and then dropping an earlier copy of it at `k` keeps the
   * same elements, with `x` moved to the end.
   */
  lemma RemoveEarlierCopy<T>(s: seq<T>, x: T, k: nat)
    requires k < |s| && s[k] == x
    ensures var a := s + [x]; multiset(a[..k] + a[k + 1..]) == multiset(s)
  {
    var a := s + [x];
    assert a[..k] == s[..k];
    assert a[k + 1..] == s[k + 1..] + [x];
    assert s == s[..k] + [x] + s[k + 1..];
  }
}
