/** List operations the selection components share: `filter(v => v !== x)`
    and the membership test `some(v => v === x)` / `includes(x)`. */
module Lists {

  /** `s.filter(v => v !== x)`. */
  function RemoveAll<T(==)>(s: seq<T>, x: T): (r: seq<T>)
    ensures |r| <= |s|
    ensures x !in r
  {
    if s == [] then []
    else RemoveAll(s[..|s| - 1], x) + (if s[|s| - 1] == x then [] else [s[|s| - 1]])
  }

  /** Removing `x` drops every `x` and nothing else: every other entry keeps
      its number of occurrences. */
  lemma {:induction false} RemoveAllCounts<T>(s: seq<T>, x: T)
    ensures multiset(RemoveAll(s, x)) == multiset(s)[x := 0]
  {
    if s != [] {
      var init, last := s[..|s| - 1], s[|s| - 1];
      RemoveAllCounts(init, x);
      assert s == init + [last];
    }
  }

  /** Removal works piece by piece, so the entries that stay keep their order:
      removing from `a + b` is removing from `a`, then from `b`. */
  lemma {:induction false} RemoveAllSplits<T>(a: seq<T>, b: seq<T>, x: T)
    ensures RemoveAll(a + b, x) == RemoveAll(a, x) + RemoveAll(b, x)
  {
    if b == [] {
      assert a + b == a;
    } else {
      var n := |b| - 1;
      var tail := if b[n] == x then [] else [b[n]];
      calc {
        RemoveAll(a + b, x);
      == { assert (a + b)[..|a + b| - 1] == a + b[..n]; assert (a + b)[|a + b| - 1] == b[n]; }
        RemoveAll(a + b[..n], x) + tail;
      == { RemoveAllSplits(a, b[..n], x); }
        (RemoveAll(a, x) + RemoveAll(b[..n], x)) + tail;
      ==
        RemoveAll(a, x) + (RemoveAll(b[..n], x) + tail);
      }
    }
  }

  /** Without `x` in the list, removing it changes nothing. */
  lemma {:induction false} RemoveAbsent<T>(s: seq<T>, x: T)
    requires x !in s
    ensures RemoveAll(s, x) == s
  {
    if s != [] {
      assert x !in s[..|s| - 1];
      RemoveAbsent(s[..|s| - 1], x);
    }
  }

  /** Appending an absent `x` and then removing every `x` gives the list back. */
  lemma AppendThenRemove<T>(s: seq<T>, x: T)
    requires x !in s
    ensures RemoveAll(s + [x], x) == s
  {
    assert (s + [x])[..|s|] == s;
    RemoveAbsent(s, x);
  }

  lemma {:induction false} RemoveAllMembership<T>(s: seq<T>, x: T, y: T)
    ensures y in RemoveAll(s, x) <==> y in s && y != x
  {
    RemoveAllCounts(s, x);
    assert y in RemoveAll(s, x) <==> y in multiset(RemoveAll(s, x));
    assert y in s <==> y in multiset(s);
  }
}
