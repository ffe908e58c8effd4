/** `Array.prototype.filter` on a sequence, and what it means to keep a
    subsequence in its original order. */
module Filtering {

  /** `r` is obtained from `s` by deleting elements, keeping the rest in order. */
  predicate IsSubsequence<T(==)>(r: seq<T>, s: seq<T>)
    decreases |s|
  {
    r == [] || (s != [] && ((r[0] == s[0] && IsSubsequence(r[1..], s[1..])) || IsSubsequence(r, s[1..])))
  }

  /** The elements of `s` that `keep` accepts, in their order in `s`. */
  function Where<T(==)>(s: seq<T>, keep: T -> bool): (r: seq<T>)
    ensures |r| <= |s|
    ensures forall i :: 0 <= i < |r| ==> keep(r[i])
    ensures IsSubsequence(r, s)
  {
    if s == [] then []
    else if keep(s[0]) then [s[0]] + Where(s[1..], keep)
    else Where(s[1..], keep)
  }

  /** Each accepted value occurs in the filter as often as in `s`, and no
      other value occurs in it. */
  lemma {:induction false} WhereCounts<T(!new)>(s: seq<T>, keep: T -> bool)
    ensures forall x :: multiset(Where(s, keep))[x] == if keep(x) then multiset(s)[x] else 0
  {
    if s != [] {
      WhereCounts(s[1..], keep);
      assert s == [s[0]] + s[1..];
    }
  }

  /** Filtering a concatenation filters each part. */
  lemma {:induction false} WhereAppend<T(!new)>(a: seq<T>, b: seq<T>, keep: T -> bool)
    ensures Where(a + b, keep) == Where(a, keep) + Where(b, keep)
  {
    if a == [] {
      assert a + b == b;
    } else {
      assert (a + b)[0] == a[0];
      assert (a + b)[1..] == a[1..] + b;
      WhereAppend(a[1..], b, keep);
    }
  }

  /** Nothing is dropped exactly when every element is accepted, and then the
      result is the input itself. */
  lemma {:induction false} WhereKeepsAll<T(!new)>(s: seq<T>, keep: T -> bool)
    ensures |Where(s, keep)| == |s| <==> forall i :: 0 <= i < |s| ==> keep(s[i])
    ensures (forall i :: 0 <= i < |s| ==> keep(s[i])) ==> Where(s, keep) == s
  {
    if s != [] {
      WhereKeepsAll(s[1..], keep);
      if forall i :: 0 <= i < |s| - 1 ==> keep(s[1..][i]) {
        assert forall i :: 1 <= i < |s| ==> keep(s[i]) by {
          forall i | 1 <= i < |s| ensures keep(s[i]) { assert s[i] == s[1..][i - 1]; }
        }
      } else {
        var i :| 0 <= i < |s| - 1 && !keep(s[1..][i]);
        assert !keep(s[i + 1]);
      }
    }
  }

  /** The result is empty exactly when no element is accepted. */
  lemma {:induction false} WhereKeepsNone<T(!new)>(s: seq<T>, keep: T -> bool)
    ensures Where(s, keep) == [] <==> forall i :: 0 <= i < |s| ==> !keep(s[i])
  {
    if s != [] {
      WhereKeepsNone(s[1..], keep);
      if !keep(s[0]) && forall i :: 0 <= i < |s| - 1 ==> !keep(s[1..][i]) {
        forall i | 1 <= i < |s| ensures !keep(s[i]) { assert s[i] == s[1..][i - 1]; }
      }
    }
  }

  /** Filtering twice with the same test is filtering once. */
  lemma WhereIdempotent<T(!new)>(s: seq<T>, keep: T -> bool)
    ensures Where(Where(s, keep), keep) == Where(s, keep)
  {
    WhereKeepsAll(Where(s, keep), keep);
  }

  /** Any subsequence of accepted elements is at most as long as the filter. */
  lemma {:induction false} WhereIsLongest<T(!new)>(r: seq<T>, s: seq<T>, keep: T -> bool)
    requires IsSubsequence(r, s)
    requires forall i :: 0 <= i < |r| ==> keep(r[i])
    ensures |r| <= |Where(s, keep)|
    decreases |s|
  {
    if r != [] {
      if r[0] == s[0] && IsSubsequence(r[1..], s[1..]) {
        WhereIsLongest(r[1..], s[1..], keep);
      } else {
        WhereIsLongest(r, s[1..], keep);
      }
    }
  }

  /** The filter is the only subsequence of accepted elements of its length:
      "keep exactly the accepted elements, in order" determines the result. */
  lemma {:induction false} WhereIsUnique<T(!new)>(r: seq<T>, s: seq<T>, keep: T -> bool)
    requires IsSubsequence(r, s)
    requires forall i :: 0 <= i < |r| ==> keep(r[i])
    requires |r| == |Where(s, keep)|
    ensures r == Where(s, keep)
    decreases |s|
  {
    if s == [] {
    } else if keep(s[0]) {
      if r != [] && r[0] == s[0] && IsSubsequence(r[1..], s[1..]) {
        WhereIsUnique(r[1..], s[1..], keep);
      } else {
        WhereIsLongest(r, s[1..], keep);
      }
    } else if r != [] {
      assert r[0] != s[0];
      WhereIsUnique(r, s[1..], keep);
    }
  }

  /** Replacing one element changes the filter's length by the verdicts on
      the old and the new element only. */
  lemma WhereCountUpdate<T(!new)>(s: seq<T>, k: nat, x: T, keep: T -> bool)
    requires k < |s|
    ensures |Where(s[k := x], keep)| ==
      |Where(s, keep)| - (if keep(s[k]) then 1 else 0) + (if keep(x) then 1 else 0)
  {
    assert s == s[..k] + [s[k]] + s[k + 1..];
    assert s[k := x] == s[..k] + [x] + s[k + 1..];
    WhereAppend(s[..k] + [s[k]], s[k + 1..], keep);
    WhereAppend(s[..k], [s[k]], keep);
    WhereAppend(s[..k] + [x], s[k + 1..], keep);
    WhereAppend(s[..k], [x], keep);
  }

  /** Sequences on which the test gives the same verdict position by position
      keep equally many elements. */
  lemma {:induction false} WhereSameVerdicts<T(!new)>(a: seq<T>, b: seq<T>, keep: T -> bool)
    requires |a| == |b|
    requires forall i :: 0 <= i < |a| ==> keep(a[i]) == keep(b[i])
    ensures |Where(a, keep)| == |Where(b, keep)|
  {
    if a != [] {
      assert keep(a[0]) == keep(b[0]);
      WhereSameVerdicts(a[1..], b[1..], keep);
    }
  }

  /** A subsequence is never longer, and one of full length is the sequence. */
  lemma {:induction false} SubsequenceLength<T(!new)>(r: seq<T>, s: seq<T>)
    requires IsSubsequence(r, s)
    ensures |r| <= |s|
    ensures |r| == |s| ==> r == s
    decreases |s|
  {
    if r != [] {
      if r[0] == s[0] && IsSubsequence(r[1..], s[1..]) {
        SubsequenceLength(r[1..], s[1..]);
        if |r| == |s| { assert r == [r[0]] + r[1..] && s == [s[0]] + s[1..]; }
      } else {
        SubsequenceLength(r, s[1..]);
      }
    }
  }

  /** Every element of a subsequence is an element of the sequence. */
  lemma {:induction false} SubsequenceElements<T(!new)>(r: seq<T>, s: seq<T>)
    requires IsSubsequence(r, s)
    ensures forall i :: 0 <= i < |r| ==> r[i] in s
    decreases |s|
  {
    if r != [] {
      if r[0] == s[0] && IsSubsequence(r[1..], s[1..]) {
        SubsequenceElements(r[1..], s[1..]);
        forall i | 0 <= i < |r| ensures r[i] in s {
          if i > 0 { assert r[i] == r[1..][i - 1] && r[i] in s[1..]; }
        }
      } else {
        SubsequenceElements(r, s[1..]);
      }
    }
  }
}
