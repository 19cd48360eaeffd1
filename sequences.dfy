/** Generic sequence operations the multi-select component relies on:
    `Array.prototype.filter` and the subsequence relation it establishes. */
module Sequences {

  /** `r` can be obtained from `s` by deleting some elements, keeping order. */
  ghost predicate IsSubsequence<T>(r: seq<T>, s: seq<T>)
    decreases |s|
  {
    if r == [] then true
    else if s == [] then false
    else if r[0] == s[0] then IsSubsequence(r[1..], s[1..])
    else IsSubsequence(r, s[1..])
  }

  /** The elements of `s` that satisfy `keep`, in their original order
      (JavaScript's `s.filter(keep)`). */
  function Filter<T(!new)>(s: seq<T>, keep: T -> bool): (r: seq<T>)
    ensures |r| <= |s|
    ensures IsSubsequence(r, s)
    ensures forall x {:trigger x in r} :: x in r <==> x in s && keep(x)
    ensures forall x {:trigger multiset(r)[x]} ::
      multiset(r)[x] == if keep(x) then multiset(s)[x] else 0
  {
    if s == [] then []
    else
      var rest := Filter(s[1..], keep);
      assert s == [s[0]] + s[1..];
      if keep(s[0]) then [s[0]] + rest
      else assert rest != [] ==> rest[0] in rest; rest
  }

  lemma {:induction false} SubsequenceCount<T>(r: seq<T>, s: seq<T>)
    requires IsSubsequence(r, s)
    ensures multiset(r) <= multiset(s)
    decreases |s|
  {
    if r == [] {
    } else if s == [] {
    } else if r[0] == s[0] {
      SubsequenceCount(r[1..], s[1..]);
      assert r == [r[0]] + r[1..];
      assert s == [s[0]] + s[1..];
    } else {
      SubsequenceCount(r, s[1..]);
      assert s == [s[0]] + s[1..];
    }
  }

  /** Filter is fully characterised by its contract: the only subsequence of
      `s` holding every kept element with its multiplicity, and nothing else,
      is `Filter(s, keep)`. */
  lemma {:induction false} FilterUnique<T(!new)>(s: seq<T>, keep: T -> bool, r: seq<T>)
    requires IsSubsequence(r, s)
    requires forall x {:trigger multiset(r)[x]} ::
      multiset(r)[x] == if keep(x) then multiset(s)[x] else 0
    ensures r == Filter(s, keep)
    decreases |s|
  {
    if s == [] {
    } else {
      var a, t := s[0], s[1..];
      assert s == [a] + t;
      if keep(a) {
        assert multiset(r)[a] == multiset(s)[a] > 0;
        assert r != [];
        assert r == [r[0]] + r[1..];
        if r[0] == a {
          forall x ensures multiset(r[1..])[x] == if keep(x) then multiset(t)[x] else 0 {
            assert multiset(r)[x] == multiset(r[1..])[x] + (if x == a then 1 else 0);
            assert multiset(s)[x] == multiset(t)[x] + (if x == a then 1 else 0);
          }
          FilterUnique(t, keep, r[1..]);
        } else {
          SubsequenceCount(r, t);
          assert false;
        }
      } else {
        if r != [] {
          assert r[0] in r;
          assert multiset(r)[r[0]] > 0;
          assert r[0] != a;
        }
        forall x ensures multiset(r)[x] == if keep(x) then multiset(t)[x] else 0 {
          assert multiset(s)[x] == multiset(t)[x] + (if x == a then 1 else 0);
        }
        FilterUnique(t, keep, r);
      }
    }
  }

  lemma {:induction false} SubsequenceRefl<T>(s: seq<T>)
    ensures IsSubsequence(s, s)
    decreases |s|
  {
    if s != [] { SubsequenceRefl(s[1..]); }
  }

  /** Deleting the last element of `s + [y]` still leaves a subsequence. */
  lemma {:induction false} SubsequenceOfAppend<T>(r: seq<T>, s: seq<T>, y: T)
    requires IsSubsequence(r, s)
    ensures IsSubsequence(r, s + [y])
    decreases |s|
  {
    if r == [] {
    } else if s == [] {
    } else {
      assert (s + [y])[1..] == s[1..] + [y];
      if r[0] == s[0] {
        SubsequenceOfAppend(r[1..], s[1..], y);
      } else {
        SubsequenceOfAppend(r, s[1..], y);
      }
    }
  }

  /** A subsequence of a list's tail is a subsequence of the list. */
  lemma {:induction false} SubsequenceSkipFirst<T>(r: seq<T>, s: seq<T>)
    requires s != [] && IsSubsequence(r, s[1..])
    ensures IsSubsequence(r, s)
    decreases |s|, 0
  {
    if r != [] && r[0] == s[0] {
      SubsequenceTail(r, s[1..]);
    }
  }

  /** Dropping the head of a subsequence keeps it a subsequence. */
  lemma {:induction false} SubsequenceTail<T>(r: seq<T>, s: seq<T>)
    requires r != [] && IsSubsequence(r, s)
    ensures IsSubsequence(r[1..], s)
    decreases |s|, 1
  {
    if r[0] == s[0] {
      if s[1..] != [] { SubsequenceSkipFirst(r[1..], s); }
    } else {
      SubsequenceTail(r, s[1..]);
      SubsequenceSkipFirst(r[1..], s);
    }
  }

  /** Deleting the element at index `i` leaves a subsequence. */
  lemma {:induction false} SubsequenceDeleteAt<T>(s: seq<T>, i: nat)
    requires i < |s|
    ensures IsSubsequence(s[..i] + s[i+1..], s)
    decreases i
  {
    if i == 0 {
      assert s[..0] + s[1..] == s[1..];
      SubsequenceRefl(s[1..]);
      SubsequenceSkipFirst(s[1..], s);
    } else {
      var r := s[..i] + s[i+1..];
      assert r[0] == s[0];
      assert r[1..] == s[1..][..i-1] + s[1..][i..];
      SubsequenceDeleteAt(s[1..], i - 1);
    }
  }
}
