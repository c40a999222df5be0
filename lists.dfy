/**
 * Specification functions on lists of strings: the searches and filters
 * that the phone list and the book's key order are built from.
 */
module Lists {
  import opened Wrappers

  /** The smallest index at which `s` occurs in `xs`, or None. */
  function FirstIndex(xs: seq<string>, s: string): (r: Option<nat>)
    ensures r.None? <==> s !in xs
    ensures r.Some? ==> r.value < |xs| && xs[r.value] == s
    ensures r.Some? ==> forall j :: 0 <= j < r.value ==> xs[j] != s
  {
    if xs == [] then None
    else if xs[0] == s then Some(0)
    else match FirstIndex(xs[1..], s)
      case None => None
      case Some(k) => Some(k + 1)
  }

  /** `xs` with every element equal to `s` dropped. */
  function Removed(xs: seq<string>, s: string): (r: seq<string>)
  {
    if xs == [] then [] else (if xs[0] == s then [] else [xs[0]]) + Removed(xs[1..], s)
  }

  /** `a` is `b` with some elements left out and the rest in their original order. */
  predicate IsSubsequence<T(==)>(a: seq<T>, b: seq<T>)
    decreases |b|
  {
    a == [] || (b != [] && ((a[0] == b[0] && IsSubsequence(a[1..], b[1..])) || IsSubsequence(a, b[1..])))
  }

  /**
   * Removed drops exactly the elements equal to `s`: none is left, every
   * other element keeps its number of occurrences, and their order is kept.
   */
  lemma {:induction false} RemovedSpec(xs: seq<string>, s: string)
    ensures s !in Removed(xs, s)
    ensures multiset(Removed(xs, s)) == multiset(xs)[s := 0]
    ensures IsSubsequence(Removed(xs, s), xs)
  {
    if xs != [] {
      RemovedSpec(xs[1..], s);
      assert xs == [xs[0]] + xs[1..];
      var r := Removed(xs[1..], s);
      if xs[0] != s {
        assert Removed(xs, s) == [xs[0]] + r;
        assert Removed(xs, s)[1..] == r;
      } else {
        assert Removed(xs, s) == r;
        SubsequenceOfTail(r, xs);
      }
    }
  }

  lemma SubsequenceOfTail<T>(a: seq<T>, b: seq<T>)
    requires b != [] && IsSubsequence(a, b[1..])
    ensures IsSubsequence(a, b)
  {
  }

  /** An element survives Removed exactly when it was there and differs from `s`. */
  lemma RemovedMembership(xs: seq<string>, s: string, y: string)
    ensures y in Removed(xs, s) <==> y in xs && y != s
  {
    RemovedSpec(xs, s);
    assert y in Removed(xs, s) <==> multiset(Removed(xs, s))[y] > 0;
    assert y in xs <==> multiset(xs)[y] > 0;
  }

  /** Removing twice is removing once. */
  lemma {:induction false} RemovedIdempotent(xs: seq<string>, s: string)
    ensures Removed(Removed(xs, s), s) == Removed(xs, s)
  {
    RemovedSpec(xs, s);
    RemovedNothing(Removed(xs, s), s);
  }

  /** When nothing matches, Removed leaves the list as it was. */
  lemma {:induction false} RemovedNothing(xs: seq<string>, s: string)
    requires s !in xs
    ensures Removed(xs, s) == xs
  {
    if xs != [] {
      assert xs[0] != s && s !in xs[1..];
      RemovedNothing(xs[1..], s);
    }
  }

  /** No element occurs twice: the keys of a dictionary in insertion order. */
  predicate Distinct(xs: seq<string>) {
    forall i, j :: 0 <= i < j < |xs| ==> xs[i] != xs[j]
  }

  /** Removing one key from a list of distinct keys keeps them distinct and drops exactly that key. */
  lemma {:induction false} RemovedDistinct(xs: seq<string>, s: string)
    requires Distinct(xs)
    ensures Distinct(Removed(xs, s))
    ensures (set y | y in Removed(xs, s)) == (set y | y in xs) - {s}
  {
    if xs != [] {
      assert Distinct(xs[1..]);
      RemovedDistinct(xs[1..], s);
      assert xs[0] !in xs[1..];
      RemovedMembership(xs[1..], s, xs[0]);
      var r := Removed(xs[1..], s);
      if xs[0] != s {
        var t := [xs[0]] + r;
        assert Removed(xs, s) == t;
        forall i, j | 0 <= i < j < |t| ensures t[i] != t[j] {
          if i == 0 {
            assert t[j] == r[j - 1];
          } else {
            assert t[i] == r[i - 1] && t[j] == r[j - 1];
          }
        }
      } else {
        assert Removed(xs, s) == r;
      }
    }
    forall y ensures y in Removed(xs, s) <==> y in xs && y != s {
      RemovedMembership(xs, s, y);
    }
  }
}
