/** The sequence operations the report is built from: filtering by a mask,
    order-preserving de-duplication (what pandas' unique does) and counting per
    distinct value (a group-by count). Each comes with the property that
    pins it down independently of how it is computed. */
module Sequences {

  /** No value occurs twice. */
  predicate Distinct<T(==)>(s: seq<T>) {
    forall i, j :: 0 <= i < j < |s| ==> s[i] != s[j]
  }

  /** Position of the first occurrence of `x` in `s`. */
  function IndexOf<T(==)>(s: seq<T>, x: T): (k: nat)
    requires x in s
    ensures k < |s| && s[k] == x
    ensures forall j :: 0 <= j < k ==> s[j] != x
  {
    if s[0] == x then 0 else 1 + IndexOf(s[1..], x)
  }

  /** `f` applied to every element, in order. */
  function Map<T, U>(s: seq<T>, f: T -> U): (r: seq<U>)
    ensures |r| == |s|
    ensures forall i :: 0 <= i < |s| ==> r[i] == f(s[i])
  {
    seq(|s|, i requires 0 <= i < |s| => f(s[i]))
  }

  /** Number of occurrences of `x` in `s`. */
  function Count<T(==)>(s: seq<T>, x: T): nat {
    if |s| == 0 then 0
    else Count(s[..|s| - 1], x) + (if s[|s| - 1] == x then 1 else 0)
  }

  /** The elements of `s` that `keep` accepts, in their original order
      (a boolean-mask selection). */
  function Filter<T>(s: seq<T>, keep: T -> bool): seq<T> {
    if |s| == 0 then []
    else Filter(s[..|s| - 1], keep) + (if keep(s[|s| - 1]) then [s[|s| - 1]] else [])
  }

  /** The positions `Filter` keeps, in increasing order. */
  function Kept<T>(s: seq<T>, keep: T -> bool): seq<nat> {
    if |s| == 0 then []
    else Kept(s[..|s| - 1], keep) + (if keep(s[|s| - 1]) then [|s| - 1] else [])
  }

  /** `Filter` keeps exactly the accepted positions, in increasing order,
      and nothing else: the result is `s` read at the positions `Kept`
      lists, and a position is listed if and only if `keep` accepts it. */
  lemma {:induction false} FilterSelectsAcceptedPositions<T>(s: seq<T>, keep: T -> bool)
    ensures |Kept(s, keep)| == |Filter(s, keep)|
    ensures forall a, b :: 0 <= a < b < |Kept(s, keep)| ==> Kept(s, keep)[a] < Kept(s, keep)[b]
    ensures forall k :: 0 <= k < |Kept(s, keep)| ==>
              Kept(s, keep)[k] < |s| && Filter(s, keep)[k] == s[Kept(s, keep)[k]]
    ensures forall i :: 0 <= i < |s| ==> (i in Kept(s, keep) <==> keep(s[i]))
  {
    if |s| > 0 {
      var p := s[..|s| - 1];
      FilterSelectsAcceptedPositions(p, keep);
      assert forall i :: 0 <= i < |p| ==> s[i] == p[i];
      assert forall k :: 0 <= k < |Kept(p, keep)| ==> Kept(p, keep)[k] < |p|;
    }
  }

  /** Every element `Filter` returns is accepted, and every accepted
      element of `s` is returned. */
  lemma FilterMembers<T>(s: seq<T>, keep: T -> bool)
    ensures forall x :: x in Filter(s, keep) <==> x in s && keep(x)
  {
  }

  /** Selecting from a concatenation selects from each part. */
  lemma {:induction false} FilterAppend<T>(a: seq<T>, b: seq<T>, keep: T -> bool)
    ensures Filter(a + b, keep) == Filter(a, keep) + Filter(b, keep)
    decreases |b|
  {
    if |b| > 0 {
      var b' := b[..|b| - 1];
      assert (a + b)[..|a + b| - 1] == a + b';
      FilterAppend(a, b', keep);
    } else {
      assert a + b == a;
    }
  }

  /** Applying the same mask twice selects nothing more and nothing less. */
  lemma {:induction false} FilterIdempotent<T>(s: seq<T>, keep: T -> bool)
    ensures Filter(Filter(s, keep), keep) == Filter(s, keep)
  {
    if |s| > 0 {
      var p := s[..|s| - 1];
      var last := if keep(s[|s| - 1]) then [s[|s| - 1]] else [];
      FilterIdempotent(p, keep);
      FilterAppend(Filter(p, keep), last, keep);
      assert Filter(last, keep) == last by {
        if |last| == 1 {
          assert last[..0] == [];
        }
      }
    }
  }

  /** Every distinct value once, at its first occurrence. */
  function Unique<T(==, !new)>(s: seq<T>): (u: seq<T>)
    ensures Distinct(u)
    ensures forall x :: x in u <==> x in s
  {
    if |s| == 0 then []
    else
      var p := s[..|s| - 1];
      var x := s[|s| - 1];
      assert forall y :: y in s <==> y in p || y == x;
      Unique(p) + (if x in p then [] else [x])
  }

  /** The first occurrence of a value in a prefix is its first occurrence
      in the whole sequence. */
  lemma {:induction false} IndexOfInPrefix<T>(s: seq<T>, n: nat, x: T)
    requires n <= |s| && x in s[..n]
    ensures IndexOf(s, x) == IndexOf(s[..n], x)
  {
  }

  /** `Unique` lists values in the order of their first occurrence. */
  lemma {:induction false} UniqueFirstOccurrenceOrder<T(!new)>(s: seq<T>)
    ensures forall a, b :: 0 <= a < b < |Unique(s)| ==> IndexOf(s, Unique(s)[a]) < IndexOf(s, Unique(s)[b])
  {
    if |s| > 0 {
      var n := |s| - 1;
      var p := s[..n];
      var x := s[n];
      var u := Unique(s);
      UniqueFirstOccurrenceOrder(p);
      assert p == s[..n];
      forall a | 0 <= a < |Unique(p)|
        ensures u[a] == Unique(p)[a] && IndexOf(s, u[a]) == IndexOf(p, u[a]) && IndexOf(p, u[a]) < n
      {
        IndexOfInPrefix(s, n, u[a]);
      }
      if x !in p {
        assert IndexOf(s, x) == n by {
          forall j | 0 <= j < n ensures s[j] != x {
            assert s[j] == p[j];
          }
        }
      }
    }
  }

  /** A value absent from `s` is counted zero times, and a present one at
      least once. */
  lemma {:induction false} CountPositiveIffPresent<T>(s: seq<T>, x: T)
    ensures Count(s, x) > 0 <==> x in s
  {
    if |s| > 0 {
      var p := s[..|s| - 1];
      CountPositiveIffPresent(p, x);
      assert s == p + [s[|s| - 1]];
    }
  }

  /** Dropping values `keep` rejects leaves the count of an accepted value
      unchanged. */
  lemma {:induction false} FilterKeepsCount<T>(s: seq<T>, keep: T -> bool, x: T)
    requires keep(x)
    ensures Count(Filter(s, keep), x) == Count(s, x)
  {
    if |s| > 0 {
      var p := s[..|s| - 1];
      var last := s[|s| - 1];
      FilterKeepsCount(p, keep, x);
      assert s == p + [last];
      CountSnoc(p, last, x);
      if keep(last) {
        assert Filter(s, keep) == Filter(p, keep) + [last];
        CountSnoc(Filter(p, keep), last, x);
      } else {
        assert Filter(s, keep) == Filter(p, keep) + [];
        assert Filter(p, keep) + [] == Filter(p, keep);
      }
    }
  }

  /** A mask that accepts everything keeps everything. */
  lemma {:induction false} FilterAll<T>(s: seq<T>, keep: T -> bool)
    requires forall i :: 0 <= i < |s| ==> keep(s[i])
    ensures Filter(s, keep) == s
  {
    if |s| > 0 {
      FilterAll(s[..|s| - 1], keep);
      assert s[..|s| - 1] + [s[|s| - 1]] == s;
    }
  }

  /** The value column of a tally. */
  function Keys<T>(t: seq<(T, nat)>): (k: seq<T>)
    ensures |k| == |t|
    ensures forall i {:trigger k[i]} :: 0 <= i < |t| ==> k[i] == t[i].0
  {
    if |t| == 0 then [] else [t[0].0] + Keys(t[1..])
  }

  /** Sum of the counts of a tally. */
  function Total<T>(t: seq<(T, nat)>): nat {
    if |t| == 0 then 0 else t[0].1 + Total(t[1..])
  }

  /** One more occurrence of `x`: its entry is incremented, or a new
      entry with count one is appended. */
  function Bump<T(==)>(t: seq<(T, nat)>, x: T): seq<(T, nat)> {
    if |t| == 0 then [(x, 1)]
    else if t[0].0 == x then [(x, t[0].1 + 1)] + t[1..]
    else [t[0]] + Bump(t[1..], x)
  }

  /** In a tally without repeated keys, `Bump` adds one to the count of
      `x` (appending `x` with count one if it had no entry) and leaves
      every other entry alone. */
  lemma {:induction false} BumpSpec<T>(t: seq<(T, nat)>, x: T)
    requires Distinct(Keys(t))
    ensures Keys(Bump(t, x)) == Keys(t) + (if x in Keys(t) then [] else [x])
    ensures Total(Bump(t, x)) == Total(t) + 1
    ensures forall i :: 0 <= i < |t| ==> Bump(t, x)[i].1 == t[i].1 + (if t[i].0 == x then 1 else 0)
    ensures x !in Keys(t) ==> Bump(t, x)[|t|].1 == 1
  {
    if |t| > 0 {
      var r := Bump(t, x);
      var tail := t[1..];
      assert Keys(t) == [t[0].0] + Keys(tail);
      if t[0].0 == x {
        assert r[1..] == tail;
        assert Keys(r) == [x] + Keys(tail);
        assert forall i :: 1 <= i < |t| ==> t[i].0 != x by {
          forall i | 1 <= i < |t| ensures t[i].0 != x {
            assert Keys(t)[0] == x && Keys(t)[i] == t[i].0;
          }
        }
      } else {
        assert Distinct(Keys(tail)) by {
          forall a, b | 0 <= a < b < |tail| ensures Keys(tail)[a] != Keys(tail)[b] {
            assert Keys(tail)[a] == Keys(t)[a + 1] && Keys(tail)[b] == Keys(t)[b + 1];
          }
        }
        BumpSpec(tail, x);
        var rest := Bump(tail, x);
        assert r == [t[0]] + rest;
        assert r[1..] == rest;
        assert Keys(r) == [t[0].0] + Keys(rest);
        assert x in Keys(t) <==> x in Keys(tail);
        forall i | 1 <= i < |t|
          ensures r[i].1 == t[i].1 + (if t[i].0 == x then 1 else 0)
        {
          assert r[i] == rest[i - 1] && t[i] == tail[i - 1];
        }
      }
    }
  }

  /** Appending `x` adds one to its count and leaves every other count alone. */
  lemma CountSnoc<T>(p: seq<T>, x: T, k: T)
    ensures Count(p + [x], k) == Count(p, k) + (if x == k then 1 else 0)
  {
  }

  /** Counting one more occurrence keeps a tally of `p` a tally of `p + [x]`. */
  lemma BumpCounts<T(!new)>(p: seq<T>, x: T, t: seq<(T, nat)>)
    requires Keys(t) == Unique(p)
    requires forall i :: 0 <= i < |t| ==> t[i].1 == Count(p, t[i].0)
    ensures forall i :: 0 <= i < |Bump(t, x)| ==> Bump(t, x)[i].1 == Count(p + [x], Bump(t, x)[i].0)
  {
    BumpSpec(t, x);
    var r := Bump(t, x);
    forall i | 0 <= i < |r|
      ensures r[i].1 == Count(p + [x], r[i].0)
    {
      assert Keys(r)[i] == r[i].0;
      CountSnoc(p, x, r[i].0);
      if i < |t| {
        assert Keys(t)[i] == t[i].0;
      } else {
        assert x !in p by {
          assert x !in Unique(p);
        }
        CountPositiveIffPresent(p, x);
      }
    }
  }

  /** A group-by count: one entry per distinct value of `s`, in order of
      first occurrence, paired with the number of times it occurs. */
  function Tally<T(==, !new)>(s: seq<T>): (t: seq<(T, nat)>)
    ensures Keys(t) == Unique(s)
    ensures forall i :: 0 <= i < |t| ==> t[i].1 == Count(s, t[i].0)
    ensures Total(t) == |s|
  {
    if |s| == 0 then []
    else
      var p := s[..|s| - 1];
      var x := s[|s| - 1];
      var t := Tally(p);
      BumpSpec(t, x);
      BumpCounts(p, x, t);
      assert p + [x] == s;
      Bump(t, x)
  }

  /** Every entry of a tally has a value of `s` and a count of at least one,
      no value has two entries, and every value of `s` has one. */
  lemma TallyEntries<T(!new)>(s: seq<T>)
    ensures Distinct(Keys(Tally(s)))
    ensures forall x :: x in Keys(Tally(s)) <==> x in s
    ensures forall i :: 0 <= i < |Tally(s)| ==> Tally(s)[i].1 >= 1
  {
    var t := Tally(s);
    forall i | 0 <= i < |t|
      ensures t[i].1 >= 1
    {
      assert Keys(t)[i] == t[i].0;
      CountPositiveIffPresent(s, t[i].0);
    }
  }
}
