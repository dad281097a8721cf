/**
 * The Ruby enumerable operations the modelled code is written with:
 * `select` (and `reject`, as `select` of the negation), `map`/`collect`,
 * and the order-preserving subsequence relation that `select` produces.
 */
module Seqs {
  import opened Wrappers

  /** `r` can be obtained from `s` by deleting elements, keeping the order. */
  ghost predicate IsSubsequence<T>(r: seq<T>, s: seq<T>)
    decreases |s|
  {
    r == [] ||
    (s != [] && ((r[0] == s[0] && IsSubsequence(r[1..], s[1..])) || IsSubsequence(r, s[1..])))
  }

  /** Ruby's `select`: the elements of `s` that satisfy `p`. */
  function Select<T>(s: seq<T>, p: T -> bool): (r: seq<T>)
    ensures |r| <= |s|
    ensures forall x :: x in r ==> x in s && p(x)
  {
    if s == [] then []
    else (if p(s[0]) then [s[0]] else []) + Select(s[1..], p)
  }

  /** Ruby's `map` / `collect`. */
  function Map<T, U>(s: seq<T>, f: T -> U): (r: seq<U>)
    ensures |r| == |s|
    ensures forall i :: 0 <= i < |s| ==> r[i] == f(s[i])
  {
    if s == [] then [] else [f(s[0])] + Map(s[1..], f)
  }

  /** An element of `s` is kept by `Select` exactly when it satisfies `p`. */
  lemma {:induction false} SelectMembership<T>(s: seq<T>, p: T -> bool, x: T)
    ensures x in Select(s, p) <==> x in s && p(x)
  {
    if s != [] {
      SelectMembership(s[1..], p, x);
      assert x in s <==> x == s[0] || x in s[1..];
    }
  }

  /** `Select` keeps every occurrence of a selected value and none of the others. */
  lemma {:induction false} SelectMultiplicity<T>(s: seq<T>, p: T -> bool, x: T)
    ensures multiset(Select(s, p))[x] == if p(x) then multiset(s)[x] else 0
  {
    if s != [] {
      SelectMultiplicity(s[1..], p, x);
      assert s == [s[0]] + s[1..];
      assert multiset(s) == multiset{s[0]} + multiset(s[1..]);
      var head := if p(s[0]) then [s[0]] else [];
      assert multiset(Select(s, p)) == multiset(head) + multiset(Select(s[1..], p));
    }
  }

  /** `Select` keeps the order of the elements it keeps. */
  lemma {:induction false} SelectIsSubsequence<T>(s: seq<T>, p: T -> bool)
    ensures IsSubsequence(Select(s, p), s)
  {
    if s != [] {
      SelectIsSubsequence(s[1..], p);
      var r := Select(s, p);
      if p(s[0]) {
        assert r[0] == s[0] && r[1..] == Select(s[1..], p);
      } else {
        assert r == Select(s[1..], p);
      }
    }
  }

  /** A subsequence never holds a value more often than the sequence it comes from. */
  lemma {:induction false} SubsequenceMultiset<T>(r: seq<T>, s: seq<T>)
    requires IsSubsequence(r, s)
    ensures multiset(r) <= multiset(s)
    decreases |s|
  {
    if r != [] {
      assert s == [s[0]] + s[1..];
      if r[0] == s[0] && IsSubsequence(r[1..], s[1..]) {
        SubsequenceMultiset(r[1..], s[1..]);
        assert r == [r[0]] + r[1..];
      } else {
        SubsequenceMultiset(r, s[1..]);
      }
    }
  }

  /**
   * `Select` is the only order-preserving subsequence of `s` that holds exactly
   * the occurrences of the values satisfying `p`: the two together are an
   * independent definition of Ruby's `select`.
   */
  lemma {:induction false} SelectUnique<T>(s: seq<T>, p: T -> bool, r: seq<T>)
    requires IsSubsequence(r, s)
    requires forall x :: multiset(r)[x] == if p(x) then multiset(s)[x] else 0
    ensures r == Select(s, p)
    decreases |s|
  {
    if s == [] {
    } else {
      var a, t := s[0], s[1..];
      assert s == [a] + t;
      assert multiset(s) == multiset{a} + multiset(t);
      if p(a) {
        if r != [] && r[0] == a && IsSubsequence(r[1..], t) {
          assert r == [a] + r[1..];
          forall x ensures multiset(r[1..])[x] == if p(x) then multiset(t)[x] else 0 {
            assert multiset(r) == multiset{a} + multiset(r[1..]);
          }
          SelectUnique(t, p, r[1..]);
        } else {
          // `r` would have to hold every `a` of `s` within `t`, which has one fewer
          SubsequenceMultiset(r, t);
        }
      } else {
        assert a !in r;
        assert IsSubsequence(r, t);
        forall x ensures multiset(r)[x] == if p(x) then multiset(t)[x] else 0 {
        }
        SelectUnique(t, p, r);
      }
    }
  }

  /** Mapping preserves the subsequence relation. */
  lemma {:induction false} MapSubsequence<T, U>(r: seq<T>, s: seq<T>, f: T -> U)
    requires IsSubsequence(r, s)
    ensures IsSubsequence(Map(r, f), Map(s, f))
    decreases |s|
  {
    if r != [] {
      if r[0] == s[0] && IsSubsequence(r[1..], s[1..]) {
        MapSubsequence(r[1..], s[1..], f);
        assert Map(r, f)[1..] == Map(r[1..], f);
      } else {
        MapSubsequence(r, s[1..], f);
      }
    }
  }

  /** A value appears in a mapped sequence exactly when some element maps to it. */
  lemma {:induction false} MapMembership<T, U>(s: seq<T>, f: T -> U, y: U)
    ensures y in Map(s, f) <==> exists x :: x in s && f(x) == y
  {
    if y in Map(s, f) {
      var i :| 0 <= i < |s| && Map(s, f)[i] == y;
      assert s[i] in s;
    }
  }

  /** When every element satisfies `p`, `Select` keeps the whole sequence. */
  lemma {:induction false} SelectAll<T>(s: seq<T>, p: T -> bool)
    requires forall x :: x in s ==> p(x)
    ensures Select(s, p) == s
  {
    if s != [] {
      assert forall x :: x in s[1..] ==> x in s;
      SelectAll(s[1..], p);
    }
  }

  /** Selecting from a concatenation selects from each part. */
  lemma {:induction false} SelectAppend<T>(s: seq<T>, t: seq<T>, p: T -> bool)
    ensures Select(s + t, p) == Select(s, p) + Select(t, p)
  {
    if s == [] {
      assert s + t == t;
    } else {
      assert (s + t)[1..] == s[1..] + t;
      SelectAppend(s[1..], t, p);
    }
  }

  /** Mapping a concatenation maps each part. */
  lemma MapAppend<T, U>(s: seq<T>, t: seq<T>, f: T -> U)
    ensures Map(s + t, f) == Map(s, f) + Map(t, f)
  {
    assert |Map(s + t, f)| == |Map(s, f) + Map(t, f)|;
    forall i | 0 <= i < |s + t|
      ensures Map(s + t, f)[i] == (Map(s, f) + Map(t, f))[i]
    {
      if i >= |s| {
        assert (s + t)[i] == t[i - |s|];
      }
    }
  }

  /** Ruby's `find`: the first element of `s` that satisfies `p`, or nothing. */
  function Find<T>(s: seq<T>, p: T -> bool): (r: Option<T>)
    ensures r.None? <==> forall i :: 0 <= i < |s| ==> !p(s[i])
    ensures r.Some? ==> exists i :: 0 <= i < |s| && s[i] == r.value && p(r.value) &&
                                   forall j :: 0 <= j < i ==> !p(s[j])
  {
    if s == [] then None
    else if p(s[0]) then Some(s[0])
    else Find(s[1..], p)
  }
}
