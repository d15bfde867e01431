/**
 * Python's ordering of `str` values: code point by code point, a proper
 * prefix coming first. Dafny's own `<` on sequences means "proper prefix",
 * so the ordering the publisher sort uses is defined here.
 */
module Lex {

  /** `a < b` on Python strings. */
  predicate Less(a: string, b: string)
    decreases |a|
  {
    if |a| == 0 then |b| > 0
    else if |b| == 0 then false
    else if a[0] != b[0] then a[0] < b[0]
    else Less(a[1..], b[1..])
  }

  /** `a <= b`, written as "b is not before a": the bubble sort leaves a pair alone exactly then. */
  predicate AtMost(a: string, b: string)
  {
    !Less(b, a)
  }

  /** `a` is a proper prefix of `b`. */
  predicate ProperPrefix(a: string, b: string)
  {
    |a| < |b| && a == b[..|a|]
  }

  /** `a` and `b` agree before position `k` and `a` has the smaller code point at `k`. */
  predicate SmallerAt(a: string, b: string, k: nat)
  {
    k < |a| && k < |b| && a[..k] == b[..k] && a[k] < b[k]
  }

  /** The recursive comparison agrees with the textbook definition of lexicographic order. */
  lemma {:induction false} LessCharacterization(a: string, b: string)
    ensures Less(a, b) <==> ProperPrefix(a, b) || exists k :: SmallerAt(a, b, k)
    decreases |a|
  {
    if |a| == 0 {
      assert a == b[..0];
      if |b| == 0 {
        forall k: nat ensures !SmallerAt(a, b, k) { }
      }
    } else if |b| == 0 {
      forall k: nat ensures !SmallerAt(a, b, k) { }
    } else if a[0] != b[0] {
      if a[0] < b[0] {
        assert SmallerAt(a, b, 0);
      }
      forall k: nat | SmallerAt(a, b, k) ensures a[0] < b[0] {
        if k > 0 { assert a[..k][0] == b[..k][0]; }
      }
    } else {
      var a', b' := a[1..], b[1..];
      LessCharacterization(a', b');
      assert a == [a[0]] + a' && b == [b[0]] + b';
      assert ProperPrefix(a, b) <==> ProperPrefix(a', b') by {
        if ProperPrefix(a', b') {
          assert b[..|a|] == [b[0]] + b'[..|a'|];
        }
        if ProperPrefix(a, b) {
          assert b'[..|a'|] == b[..|a|][1..];
        }
      }
      if k: nat :| SmallerAt(a', b', k) {
        assert a[..k + 1] == [a[0]] + a'[..k];
        assert b[..k + 1] == [b[0]] + b'[..k];
        assert SmallerAt(a, b, k + 1);
      }
      if k: nat :| SmallerAt(a, b, k) {
        assert k != 0;
        assert a'[..k - 1] == a[..k][1..];
        assert b'[..k - 1] == b[..k][1..];
        assert SmallerAt(a', b', k - 1);
      }
    }
  }

  lemma {:induction false} LessIrreflexive(a: string)
    ensures !Less(a, a)
    decreases |a|
  {
    if |a| > 0 {
      LessIrreflexive(a[1..]);
    }
  }

  lemma {:induction false} LessTransitive(a: string, b: string, c: string)
    requires Less(a, b) && Less(b, c)
    ensures Less(a, c)
    decreases |a|
  {
    if |a| > 0 && a[0] == b[0] && b[0] == c[0] {
      LessTransitive(a[1..], b[1..], c[1..]);
    }
  }

  /** Any two distinct strings are ordered one way or the other. */
  lemma {:induction false} LessTotal(a: string, b: string)
    ensures a == b || Less(a, b) || Less(b, a)
    decreases |a|
  {
    if |a| > 0 && |b| > 0 && a[0] == b[0] {
      LessTotal(a[1..], b[1..]);
      if a[1..] == b[1..] {
        assert a == [a[0]] + a[1..] && b == [b[0]] + b[1..];
      }
    }
  }

  lemma LessAsymmetric(a: string, b: string)
    requires Less(a, b)
    ensures !Less(b, a)
  {
  }

  lemma AtMostTransitive(a: string, b: string, c: string)
    requires AtMost(a, b) && AtMost(b, c)
    ensures AtMost(a, c)
  {
    if Less(c, a) {
      LessTotal(a, b);
      if Less(a, b) {
        LessTransitive(c, a, b);
      }
    }
  }
}
