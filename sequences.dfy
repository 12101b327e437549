/** The two array operations every catalog view is built from:
    `Array.prototype.slice` and the stable `Array.prototype.filter`. */
module Sequences {

  function Min(a: int, b: int): int { if a <= b then a else b }

  /** How `slice` turns one bound into an index: a negative bound counts from
      the end, and every bound is clamped to [0, len]. */
  function SliceBound(len: nat, k: int): (b: nat)
    ensures b <= len
    ensures 0 <= k ==> b == Min(k, len)
    ensures k < 0 ==> b == if len + k < 0 then 0 else len + k
  {
    if k < 0 then (if len + k < 0 then 0 else len + k)
    else if k <= len then k else len
  }

  /** `s.slice(start, end)`: never fails, an empty range gives []. */
  function Slice<T>(s: seq<T>, start: int, end: int): (r: seq<T>)
    ensures |r| <= |s|
    ensures 0 <= start <= end ==> |r| == Min(end, |s|) - Min(start, |s|)
    ensures forall i :: 0 <= i < |r| ==> SliceBound(|s|, start) + i < |s| && r[i] == s[SliceBound(|s|, start) + i]
  {
    var from := SliceBound(|s|, start);
    var to := SliceBound(|s|, end);
    if from < to then s[from..to] else []
  }

  /** `s.slice(0, k)`: the first min(k, |s|) elements, in order. */
  function Take<T>(s: seq<T>, k: nat): (r: seq<T>)
    ensures r == s[..Min(k, |s|)]
  {
    Slice(s, 0, k)
  }

  /** `s.slice(0, k)` followed by the rest of s is s again. */
  lemma TakeSplit<T>(s: seq<T>, k: nat)
    ensures |Take(s, k)| <= k && |Take(s, k)| <= |s|
    ensures s == Take(s, k) + s[|Take(s, k)|..]
  {
    var m := Min(k, |s|);
    assert s == s[..m] + s[m..];
  }

  /** `s.filter(keep)`: the elements that pass, in their original order. */
  function Select<T>(s: seq<T>, keep: T -> bool): (r: seq<T>)
    ensures |r| <= |s|
    ensures forall i :: 0 <= i < |r| ==> keep(r[i])
  {
    if s == [] then []
    else if keep(s[0]) then [s[0]] + Select(s[1..], keep)
    else Select(s[1..], keep)
  }

  /** r can be obtained from s by deleting elements (greedy matching decides it). */
  predicate IsSubsequence<T(==)>(r: seq<T>, s: seq<T>)
    decreases |s|
  {
    if r == [] then true
    else if s == [] then false
    else if r[0] == s[0] then IsSubsequence(r[1..], s[1..])
    else IsSubsequence(r, s[1..])
  }

  /** A prefix is a subsequence. */
  lemma {:induction false} PrefixIsSubsequence<T>(s: seq<T>, k: nat)
    requires k <= |s|
    ensures IsSubsequence(s[..k], s)
  {
    if k > 0 {
      assert s[..k][1..] == s[1..][..k - 1];
      PrefixIsSubsequence(s[1..], k - 1);
    }
  }

  /** Every element of a subsequence occurs in the sequence. */
  lemma {:induction false} SubsequenceMembers<T>(r: seq<T>, s: seq<T>)
    requires IsSubsequence(r, s)
    ensures multiset(r) <= multiset(s)
    decreases |s|
  {
    if r != [] {
      if r[0] == s[0] {
        SubsequenceMembers(r[1..], s[1..]);
        assert r == [r[0]] + r[1..];
        assert s == [s[0]] + s[1..];
      } else {
        SubsequenceMembers(r, s[1..]);
        assert s == [s[0]] + s[1..];
      }
    }
  }

  /** filter keeps order: its result is a subsequence of its input. */
  lemma {:induction false} SelectIsSubsequence<T>(s: seq<T>, keep: T -> bool)
    ensures IsSubsequence(Select(s, keep), s)
  {
    if s != [] {
      SelectIsSubsequence(s[1..], keep);
      var r := Select(s, keep);
      if keep(s[0]) {
        assert r[0] == s[0] && r[1..] == Select(s[1..], keep);
      } else {
        SkipHead(r, s);
      }
    }
  }

  /** A subsequence of the tail is a subsequence of the whole. */
  lemma {:induction false} SkipHead<T>(r: seq<T>, s: seq<T>)
    requires s != [] && IsSubsequence(r, s[1..])
    ensures IsSubsequence(r, s)
    decreases |s|, 0
  {
    if r != [] && r[0] == s[0] {
      SubsequenceTail(r, s[1..]);
    }
  }

  /** Dropping the head of a (non-empty) subsequence keeps a subsequence. */
  lemma {:induction false} SubsequenceTail<T>(r: seq<T>, s: seq<T>)
    requires r != [] && IsSubsequence(r, s)
    ensures IsSubsequence(r[1..], s)
    decreases |s|, 1
  {
    if r[0] == s[0] {
      SkipHead(r[1..], s);
    } else {
      SubsequenceTail(r, s[1..]);
      SkipHead(r[1..], s);
    }
  }

  /** A subsequence of a subsequence is a subsequence. */
  lemma {:induction false} SubsequenceTransitive<T>(a: seq<T>, b: seq<T>, c: seq<T>)
    requires IsSubsequence(a, b) && IsSubsequence(b, c)
    ensures IsSubsequence(a, c)
    decreases |c|
  {
    if a != [] {
      if b[0] == c[0] {
        if a[0] == b[0] {
          SubsequenceTransitive(a[1..], b[1..], c[1..]);
        } else {
          SubsequenceTransitive(a, b[1..], c[1..]);
          SkipHead(a, c);
        }
      } else {
        SubsequenceTransitive(a, b, c[1..]);
        SkipHead(a, c);
      }
    }
  }

  /** What filter keeps, counted with multiplicity: every passing element as
      often as in the input, no failing element at all. */
  lemma {:induction false} SelectMultiset<T>(s: seq<T>, keep: T -> bool, x: T)
    ensures multiset(Select(s, keep))[x] == if keep(x) then multiset(s)[x] else 0
  {
    if s != [] {
      SelectMultiset(s[1..], keep, x);
      assert s == [s[0]] + s[1..];
    }
  }

  /** x survives filter exactly when it is in the input and passes. */
  lemma SelectMembership<T>(s: seq<T>, keep: T -> bool, x: T)
    ensures x in Select(s, keep) <==> x in s && keep(x)
  {
    SelectMultiset(s, keep, x);
  }

  /** filter distributes over concatenation. */
  lemma {:induction false} SelectAppend<T>(a: seq<T>, b: seq<T>, keep: T -> bool)
    ensures Select(a + b, keep) == Select(a, keep) + Select(b, keep)
  {
    if a != [] {
      assert (a + b)[0] == a[0] && (a + b)[1..] == a[1..] + b;
      SelectAppend(a[1..], b, keep);
      if keep(a[0]) {
        assert Select(a + b, keep) == [a[0]] + Select(a[1..] + b, keep);
        assert Select(a, keep) == [a[0]] + Select(a[1..], keep);
      } else {
        assert Select(a + b, keep) == Select(a[1..] + b, keep);
      }
    } else {
      assert a + b == b;
    }
  }

  /** filter only looks at the values its predicate gives. */
  lemma {:induction false} SelectCongruent<T>(s: seq<T>, keep: T -> bool, keep': T -> bool)
    requires forall i :: 0 <= i < |s| ==> keep(s[i]) == keep'(s[i])
    ensures Select(s, keep) == Select(s, keep')
  {
    if s != [] {
      SelectCongruent(s[1..], keep, keep');
    }
  }

  /** filter is the identity when every element passes. */
  lemma {:induction false} SelectAllPass<T>(s: seq<T>, keep: T -> bool)
    requires forall i :: 0 <= i < |s| ==> keep(s[i])
    ensures Select(s, keep) == s
  {
    if s != [] {
      SelectAllPass(s[1..], keep);
    }
  }

  /** Filtering twice with the same predicate is filtering once. */
  lemma SelectIdempotent<T>(s: seq<T>, keep: T -> bool)
    ensures Select(Select(s, keep), keep) == Select(s, keep)
  {
    SelectAllPass(Select(s, keep), keep);
  }

  /** `s.filter(keep).slice(0, k)` is the complete filter of some prefix of s,
      and that prefix stops short of the end only once k elements were found:
      the result is exactly the first min(k, #passing) passing elements. */
  lemma {:induction false} FirstPassing<T>(s: seq<T>, keep: T -> bool, k: nat) returns (j: nat)
    ensures j <= |s|
    ensures Take(Select(s, keep), k) == Select(s[..j], keep)
    ensures j == |s| || |Take(Select(s, keep), k)| == k
  {
    if s == [] || k == 0 {
      j := 0;
      assert s[..0] == [];
    } else {
      var rest := Select(s[1..], keep);
      if keep(s[0]) {
        var j' := FirstPassing(s[1..], keep, k - 1);
        j := j' + 1;
        assert s[..j] == [s[0]] + s[1..][..j'];
        assert Take([s[0]] + rest, k) == [s[0]] + Take(rest, k - 1);
      } else {
        var j' := FirstPassing(s[1..], keep, k);
        j := j' + 1;
        assert s[..j] == [s[0]] + s[1..][..j'];
      }
    }
  }

  /** What `s.filter(keep).slice(0, k)` promises: min(k, #passing) elements,
      each passing, in their order in s. */
  lemma FirstPassingSpec<T>(s: seq<T>, keep: T -> bool, k: nat)
    ensures |Take(Select(s, keep), k)| == Min(k, |Select(s, keep)|)
    ensures forall i :: 0 <= i < |Take(Select(s, keep), k)| ==> keep(Take(Select(s, keep), k)[i])
    ensures IsSubsequence(Take(Select(s, keep), k), s)
  {
    var r := Select(s, keep);
    PrefixIsSubsequence(r, Min(k, |r|));
    SelectIsSubsequence(s, keep);
    SubsequenceTransitive(Take(r, k), r, s);
  }
}
