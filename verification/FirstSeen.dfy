/** The distinct elements of a sequence in order of first occurrence, and how often each occurs. */
module FirstSeen {

  function Firsts<T(==)>(s: seq<T>): seq<T> {
    if s == [] then []
    else
      var f := Firsts(s[..|s| - 1]);
      if s[|s| - 1] in f then f else f + [s[|s| - 1]]
  }

  function Occurs<T(==)>(s: seq<T>, x: T): nat {
    if s == [] then 0 else Occurs(s[..|s| - 1], x) + if s[|s| - 1] == x then 1 else 0
  }

  /** How many elements of s are not in keep. */
  function Others<T(==)>(s: seq<T>, keep: seq<T>): nat {
    if s == [] then 0 else Others(s[..|s| - 1], keep) + if s[|s| - 1] in keep then 0 else 1
  }

  ghost predicate Distinct<T>(s: seq<T>) { forall i, j :: 0 <= i < j < |s| ==> s[i] != s[j] }

  lemma FirstsOf<T>(s: seq<T>, x: T)
    ensures Firsts(s + [x]) == if x in Firsts(s) then Firsts(s) else Firsts(s) + [x]
    ensures forall y :: Occurs(s + [x], y) == Occurs(s, y) + if x == y then 1 else 0
    ensures forall keep :: Others(s + [x], keep) == Others(s, keep) + if x in keep then 0 else 1
  {
    assert (s + [x])[..|s|] == s;
  }

  /** No repetition, nothing missing, nothing invented. */
  lemma {:induction false} FirstsExact<T>(s: seq<T>)
    ensures Distinct(Firsts(s))
    ensures forall x :: x in Firsts(s) <==> x in s
  {
    if s != [] {
      var p, x := s[..|s| - 1], s[|s| - 1];
      FirstsExact(p);
      assert s == p + [x];
      assert forall y :: y in s <==> y in p || y == x;
    }
  }

  /** Later elements never move earlier ones: the list only grows at its end. */
  lemma {:induction false} FirstsPrefix<T>(s: seq<T>, n: nat)
    requires n <= |s|
    ensures Firsts(s[..n]) <= Firsts(s)
  {
    if n < |s| {
      FirstsPrefix(s[..|s| - 1], n);
      assert s[..|s| - 1][..n] == s[..n];
    } else {
      assert s[..n] == s;
    }
  }

  lemma {:induction false} AbsentOccurs<T>(s: seq<T>, x: T)
    ensures Occurs(s, x) == 0 <==> x !in s
  {
    if s != [] {
      var p := s[..|s| - 1];
      AbsentOccurs(p, x);
      assert s == p + [s[|s| - 1]];
    }
  }

  /** Counting occurrences is counting in the multiset. */
  lemma {:induction false} OccursIsMultiplicity<T>(s: seq<T>, x: T)
    ensures Occurs(s, x) == multiset(s)[x]
  {
    if s != [] {
      OccursIsMultiplicity(s[..|s| - 1], x);
      assert s == s[..|s| - 1] + [s[|s| - 1]];
    }
  }

  lemma {:induction false} OthersAll<T>(s: seq<T>)
    ensures Others(s, []) == |s|
  {
    if s != [] {
      OthersAll(s[..|s| - 1]);
    }
  }

  /** Keeping one more element takes exactly its occurrences out of the others. */
  lemma {:induction false} OthersStep<T>(s: seq<T>, keep: seq<T>, x: T)
    requires x !in keep
    ensures Others(s, keep) == Others(s, keep + [x]) + Occurs(s, x)
  {
    if s != [] {
      OthersStep(s[..|s| - 1], keep, x);
    }
  }

  function SumOccurs<T(==)>(s: seq<T>, keep: seq<T>): nat {
    if keep == [] then 0 else SumOccurs(s, keep[..|keep| - 1]) + Occurs(s, keep[|keep| - 1])
  }

  /** Every element is counted once: under the kept element it equals, or among the others. */
  lemma {:induction false} Conserved<T>(s: seq<T>, keep: seq<T>)
    requires Distinct(keep)
    ensures SumOccurs(s, keep) + Others(s, keep) == |s|
  {
    if keep == [] {
      OthersAll(s);
    } else {
      var rest, x := keep[..|keep| - 1], keep[|keep| - 1];
      Conserved(s, rest);
      OthersStep(s, rest, x);
      assert keep == rest + [x];
    }
  }
}
