/** Filtering a list while dropping repeats. */
module FirstOccurrences {

  /** The elements of `kept`, each once, in the order they first occur in the list. */
  function First<T(==)>(xs: seq<T>, kept: set<T>): seq<T> {
    if xs == [] then []
    else
      var last, before := xs[|xs| - 1], First(xs[..|xs| - 1], kept);
      if last in kept && last !in before then before + [last] else before
  }

  lemma FirstOneMore<T>(xs: seq<T>, kept: set<T>, i: nat)
    requires i < |xs|
    ensures First(xs[..i + 1], kept) ==
            if xs[i] in kept && xs[i] !in First(xs[..i], kept) then First(xs[..i], kept) + [xs[i]] else First(xs[..i], kept)
  {
    assert xs[..i + 1][..i] == xs[..i];
  }

  lemma {:induction false} FirstMembers<T>(xs: seq<T>, kept: set<T>, x: T)
    ensures x in First(xs, kept) <==> x in xs && x in kept
  {
    if xs != [] {
      FirstMembers(xs[..|xs| - 1], kept, x);
      assert xs == xs[..|xs| - 1] + [xs[|xs| - 1]];
    }
  }

  ghost predicate Distinct<T>(xs: seq<T>) {
    forall i, j | 0 <= i < j < |xs| :: xs[i] != xs[j]
  }

  lemma {:induction false} FirstDistinct<T>(xs: seq<T>, kept: set<T>)
    ensures Distinct(First(xs, kept))
  {
    if xs != [] {
      var before := First(xs[..|xs| - 1], kept);
      FirstDistinct(xs[..|xs| - 1], kept);
      assert xs[|xs| - 1] !in before ==> Distinct(before + [xs[|xs| - 1]]);
    }
  }

  /** Where an element first occurs. */
  function IndexOf<T(==)>(xs: seq<T>, x: T): (i: nat)
    requires x in xs
    ensures i < |xs| && xs[i] == x && x !in xs[..i]
  {
    if x in xs[..|xs| - 1] then
      assert xs[..|xs| - 1][..IndexOf(xs[..|xs| - 1], x)] == xs[..IndexOf(xs[..|xs| - 1], x)];
      IndexOf(xs[..|xs| - 1], x)
    else
      assert xs == xs[..|xs| - 1] + [xs[|xs| - 1]];
      |xs| - 1
  }

  /** What is kept comes in the order of first occurrence. */
  lemma {:induction false} FirstInOrder<T>(xs: seq<T>, kept: set<T>, i: nat, j: nat)
    requires i < j < |First(xs, kept)|
    ensures First(xs, kept)[i] in xs && First(xs, kept)[j] in xs
    ensures IndexOf(xs, First(xs, kept)[i]) < IndexOf(xs, First(xs, kept)[j])
  {
    var f, before := First(xs, kept), First(xs[..|xs| - 1], kept);
    FirstMembers(xs, kept, f[i]);
    FirstMembers(xs, kept, f[j]);
    FirstMembers(xs[..|xs| - 1], kept, f[i]);
    FirstMembers(xs[..|xs| - 1], kept, f[j]);
    if j < |before| {
      FirstInOrder(xs[..|xs| - 1], kept, i, j);
    }
  }

  lemma {:induction false} NothingKept<T>(xs: seq<T>)
    ensures First(xs, {}) == []
  {
    if xs != [] { NothingKept(xs[..|xs| - 1]); }
  }
}
