/** Row selection as the pipeline's boolean-mask indexing `df[mask]` does
    it: keep exactly the rows the mask accepts, in their original order. */
module Selection {

  /** `r` consists of the elements of `s` at the strictly increasing
      positions `idx`, and those positions are exactly the ones whose element
      `keep` accepts. */
  ghost predicate SelectsAt<T>(s: seq<T>, keep: T -> bool, idx: seq<nat>, r: seq<T>) {
    && |idx| == |r|
    && (forall k :: 0 <= k < |idx| ==> idx[k] < |s| && r[k] == s[idx[k]])
    && (forall k, l :: 0 <= k < l < |idx| ==> idx[k] < idx[l])
    && (forall i :: 0 <= i < |s| ==> (keep(s[i]) <==> i in idx))
  }

  /** `r` is the order-preserving subsequence of `s` made of exactly the
      elements `keep` accepts. */
  ghost predicate ExactSelection<T>(s: seq<T>, keep: T -> bool, r: seq<T>) {
    exists idx :: SelectsAt(s, keep, idx, r)
  }

  function Filter<T>(s: seq<T>, keep: T -> bool): (r: seq<T>)
    ensures |r| <= |s|
    ensures forall x :: x in r ==> x in s && keep(x)
  {
    if |s| == 0 then []
    else (if keep(s[0]) then [s[0]] else []) + Filter(s[1..], keep)
  }

  /** The positions `Filter` keeps. */
  function KeptPositions<T>(s: seq<T>, keep: T -> bool): seq<nat> {
    if |s| == 0 then []
    else (if keep(s[0]) then [0] else []) + Shift(KeptPositions(s[1..], keep))
  }

  function Shift(idx: seq<nat>): (r: seq<nat>)
    ensures |r| == |idx| && forall k :: 0 <= k < |idx| ==> r[k] == idx[k] + 1
  {
    seq(|idx|, k requires 0 <= k < |idx| => idx[k] + 1)
  }

  /** Strictly increasing positions below `n` number at most `n`. */
  lemma {:induction false} IncreasingBelow(idx: seq<nat>, n: nat)
    requires forall k :: 0 <= k < |idx| ==> idx[k] < n
    requires forall k, l :: 0 <= k < l < |idx| ==> idx[k] < idx[l]
    ensures |idx| <= n
  {
    if |idx| > 0 {
      IncreasingBelow(idx[..|idx| - 1], idx[|idx| - 1]);
    }
  }

  lemma {:induction false} FilterSelectsAt<T>(s: seq<T>, keep: T -> bool)
    ensures SelectsAt(s, keep, KeptPositions(s, keep), Filter(s, keep))
  {
    if |s| > 0 {
      FilterSelectsAt(s[1..], keep);
      ConsSelectsAt(s, keep, KeptPositions(s[1..], keep), Filter(s[1..], keep));
    }
  }

  /** Extends a selection of `s[1..]` by the decision on `s[0]`. */
  lemma ConsSelectsAt<T>(s: seq<T>, keep: T -> bool, ti: seq<nat>, tr: seq<T>)
    requires |s| > 0 && SelectsAt(s[1..], keep, ti, tr)
    ensures SelectsAt(s, keep, (if keep(s[0]) then [0] else []) + Shift(ti),
                      (if keep(s[0]) then [s[0]] else []) + tr)
  {
    var tail := s[1..];
    var sh := Shift(ti);
    var head := if keep(s[0]) then [0] else [];
    var idx := head + sh;
    var r := (if keep(s[0]) then [s[0]] else []) + tr;
    ConsPositions(s, ti, tr, head, r);
    ConsOrder(ti, head);
    ConsMembership(s, keep, ti, head);
  }

  lemma ConsMembership<T>(s: seq<T>, keep: T -> bool, ti: seq<nat>, head: seq<nat>)
    requires |s| > 0
    requires forall i :: 0 <= i < |s| - 1 ==> (keep(s[1..][i]) <==> i in ti)
    requires head == (if keep(s[0]) then [0] else [])
    ensures forall i :: 0 <= i < |s| ==> (keep(s[i]) <==> i in head + Shift(ti))
  {
    var tail := s[1..];
    var sh := Shift(ti);
    forall i | 0 <= i < |s|
      ensures keep(s[i]) <==> i in head + sh
    {
      if i == 0 {
        assert forall k :: 0 <= k < |sh| ==> sh[k] >= 1;
      } else {
        assert s[i] == tail[i - 1];
        assert keep(s[i]) ==> i in sh by {
          if keep(s[i]) {
            var k :| 0 <= k < |ti| && ti[k] == i - 1;
            assert sh[k] == i;
          }
        }
        assert i in sh ==> keep(tail[i - 1]) by {
          if i in sh {
            var k :| 0 <= k < |sh| && sh[k] == i;
            assert ti[k] == i - 1;
          }
        }
      }
    }
  }

  lemma ConsPositions<T>(s: seq<T>, ti: seq<nat>, tr: seq<T>, head: seq<nat>, r: seq<T>)
    requires |s| > 0 && |ti| == |tr|
    requires forall k :: 0 <= k < |ti| ==> ti[k] < |s| - 1 && tr[k] == s[1..][ti[k]]
    requires (head == [] && r == tr) || (head == [0] && r == [s[0]] + tr)
    ensures |head + Shift(ti)| == |r|
    ensures forall k :: 0 <= k < |r| ==> (head + Shift(ti))[k] < |s| && r[k] == s[(head + Shift(ti))[k]]
  {
    var idx := head + Shift(ti);
    forall k | 0 <= k < |r|
      ensures idx[k] < |s| && r[k] == s[idx[k]]
    {
      if k >= |head| {
        assert idx[k] == ti[k - |head|] + 1;
        assert r[k] == tr[k - |head|];
      }
    }
  }

  lemma ConsOrder(ti: seq<nat>, head: seq<nat>)
    requires forall k, l :: 0 <= k < l < |ti| ==> ti[k] < ti[l]
    requires head == [] || head == [0]
    ensures forall k, l :: 0 <= k < l < |head + Shift(ti)| ==> (head + Shift(ti))[k] < (head + Shift(ti))[l]
  {
    var idx := head + Shift(ti);
    forall k, l | 0 <= k < l < |idx|
      ensures idx[k] < idx[l]
    {
      if k >= |head| {
        assert idx[k] == ti[k - |head|] + 1 && idx[l] == ti[l - |head|] + 1;
      } else {
        assert idx[l] == ti[l - 1] + 1;
      }
    }
  }

  /** `Filter` is the row selection `df[mask]` describes. */
  lemma FilterIsExactSelection<T>(s: seq<T>, keep: T -> bool)
    ensures ExactSelection(s, keep, Filter(s, keep))
  {
    FilterSelectsAt(s, keep);
  }

  /** Two masks applied one after the other select what their conjunction
      selects in one go. */
  function Both<T>(p: T -> bool, q: T -> bool): T -> bool {
    x => p(x) && q(x)
  }

  lemma BothAt<T>(p: T -> bool, q: T -> bool, x: T)
    ensures Both(p, q)(x) <==> p(x) && q(x)
  {
  }

  lemma {:induction false} FilterTwice<T>(s: seq<T>, p: T -> bool, q: T -> bool)
    ensures Filter(Filter(s, p), q) == Filter(s, Both(p, q))
  {
    if |s| > 0 {
      FilterTwice(s[1..], p, q);
      if p(s[0]) {
        assert Filter(s, p) == [s[0]] + Filter(s[1..], p);
        assert Filter(s, p)[1..] == Filter(s[1..], p);
      } else {
        assert Filter(s, p) == Filter(s[1..], p);
      }
    }
  }

  /** Applying a mask to rows it already selected changes nothing. */
  lemma {:induction false} FilterIdempotent<T>(s: seq<T>, keep: T -> bool)
    ensures Filter(Filter(s, keep), keep) == Filter(s, keep)
  {
    if |s| > 0 {
      FilterIdempotent(s[1..], keep);
      var f := Filter(s, keep);
      if keep(s[0]) {
        assert f == [s[0]] + Filter(s[1..], keep);
        assert f[0] == s[0];
        assert f[1..] == Filter(s[1..], keep);
      } else {
        assert f == Filter(s[1..], keep);
      }
    }
  }
}
