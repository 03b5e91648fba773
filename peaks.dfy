/** The peak record shared by the detector, the trace summary and the peak
    helpers, and the one ranking rule both reports use: a stable sort by
    descending height. */
module Peaks {

  /** One detected peak. The values are those computed before the
      two-decimal rounding applied when the record is built. */
  datatype Peak = Peak(
    peakIndex: nat,
    height: real,
    retentionTime: real,
    area: real,
    startTime: real,
    endTime: real)

  /** Heights never increase from left to right. */
  predicate NonIncreasing(s: seq<Peak>)
  {
    forall i, j :: 0 <= i < j < |s| ==> s[i].height >= s[j].height
  }

  /** The peaks of `s` whose height is exactly `h`, in the order of `s`.
      A sort is stable exactly when it leaves each of these unchanged. */
  function WithHeight(s: seq<Peak>, h: real): seq<Peak>
  {
    if s == [] then []
    else (if s[0].height == h then [s[0]] else []) + WithHeight(s[1..], h)
  }

  /** Every peak of `s` is at most `b` high. */
  predicate AtMost(s: seq<Peak>, b: real)
  {
    forall i :: 0 <= i < |s| ==> s[i].height <= b
  }

  /** Places `p` in front of the first peak of `s` that is not higher than
      `p`, so that `p` precedes every peak of equal height already in `s`. */
  function InsertByHeight(p: Peak, s: seq<Peak>): (r: seq<Peak>)
    ensures |r| == |s| + 1
    ensures multiset(r) == multiset(s) + multiset{p}
  {
    if s == [] || s[0].height <= p.height then [p] + s
    else
      assert s == [s[0]] + s[1..];
      [s[0]] + InsertByHeight(p, s[1..])
  }

  lemma {:induction false} InsertByHeightAtMost(p: Peak, s: seq<Peak>, b: real)
    requires AtMost(s, b) && p.height <= b
    ensures AtMost(InsertByHeight(p, s), b)
  {
    if !(s == [] || s[0].height <= p.height) {
      InsertByHeightAtMost(p, s[1..], b);
    }
  }

  /** Inserting into a ranked sequence keeps it ranked. */
  lemma {:induction false} InsertByHeightSorted(p: Peak, s: seq<Peak>)
    requires NonIncreasing(s)
    ensures NonIncreasing(InsertByHeight(p, s))
  {
    if !(s == [] || s[0].height <= p.height) {
      NonIncreasingTail(s);
      InsertByHeightSorted(p, s[1..]);
      InsertByHeightAtMost(p, s[1..], s[0].height);
      var r := InsertByHeight(p, s[1..]);
      assert InsertByHeight(p, s) == [s[0]] + r;
    }
  }

  /** Python's `sorted(peaks, key=lambda p: p['height'], reverse=True)`:
      heights in non-increasing order, a permutation of the input. Its
      stability is `SortByHeightStable`. */
  function SortByHeight(s: seq<Peak>): (r: seq<Peak>)
    ensures |r| == |s|
    ensures multiset(r) == multiset(s)
    ensures NonIncreasing(r)
  {
    if s == [] then []
    else
      var rest := SortByHeight(s[1..]);
      InsertByHeightSorted(s[0], rest);
      assert s == [s[0]] + s[1..];
      InsertByHeight(s[0], rest)
  }

  lemma {:induction false} WithHeightAppend(a: seq<Peak>, b: seq<Peak>, h: real)
    ensures WithHeight(a + b, h) == WithHeight(a, h) + WithHeight(b, h)
  {
    if a == [] {
      assert a + b == b;
    } else {
      var front := if a[0].height == h then [a[0]] else [];
      assert (a + b)[0] == a[0];
      assert (a + b)[1..] == a[1..] + b;
      WithHeightAppend(a[1..], b, h);
      assert WithHeight(a + b, h) == front + (WithHeight(a[1..], h) + WithHeight(b, h));
    }
  }

  /** Inserting `p` adds it to the front of its own height class and leaves
      every other height class as it was. */
  lemma {:induction false} InsertByHeightWithHeight(p: Peak, s: seq<Peak>, h: real)
    ensures WithHeight(InsertByHeight(p, s), h)
         == (if p.height == h then [p] else []) + WithHeight(s, h)
  {
    if s == [] || s[0].height <= p.height {
      assert ([p] + s)[1..] == s;
    } else {
      var rest := InsertByHeight(p, s[1..]);
      assert ([s[0]] + rest)[1..] == rest;
      InsertByHeightWithHeight(p, s[1..], h);
    }
  }

  /** Stability: peaks of equal height keep their input order. Together with
      the contract of `SortByHeight` this determines the ranking. */
  lemma {:induction false} SortByHeightStable(s: seq<Peak>)
    ensures forall h :: WithHeight(SortByHeight(s), h) == WithHeight(s, h)
  {
    if s != [] {
      SortByHeightStable(s[1..]);
      forall h ensures WithHeight(SortByHeight(s), h) == WithHeight(s, h) {
        InsertByHeightWithHeight(s[0], SortByHeight(s[1..]), h);
      }
    }
  }

  /** A stable non-increasing arrangement of the peaks is unique: any sequence
      that is sorted, a permutation of `s` and stable is `SortByHeight(s)`. */
  lemma {:induction false} SortByHeightUnique(s: seq<Peak>, r: seq<Peak>)
    requires NonIncreasing(r)
    requires forall h :: WithHeight(r, h) == WithHeight(s, h)
    ensures r == SortByHeight(s)
  {
    SortByHeightStable(s);
    SortedStableUnique(r, SortByHeight(s));
  }

  /** Two non-increasing sequences with the same height classes are equal. */
  lemma {:induction false} SortedStableUnique(a: seq<Peak>, b: seq<Peak>)
    requires NonIncreasing(a) && NonIncreasing(b)
    requires forall h :: WithHeight(a, h) == WithHeight(b, h)
    ensures a == b
    decreases |a| + |b|
  {
    if a == [] && b == [] {
    } else if a == [] || b == [] {
      TopClassHead(if a == [] then b else a);
      assert false;
    } else {
      // The first element of each is the highest of its sequence, so both
      // start with the first peak of the same (top) height class.
      var ha, hb := a[0].height, b[0].height;
      TopClassHead(a);
      TopClassHead(b);
      WithHeightMember(b, ha);
      WithHeightMember(a, hb);
      assert ha == hb;
      assert a[0] == WithHeight(a, ha)[0] == WithHeight(b, ha)[0] == b[0];
      forall h ensures WithHeight(a[1..], h) == WithHeight(b[1..], h) {
        var front := if a[0].height == h then [a[0]] else [];
        assert WithHeight(a, h) == front + WithHeight(a[1..], h);
        assert WithHeight(b, h) == front + WithHeight(b[1..], h);
        assert WithHeight(a[1..], h) == WithHeight(a, h)[|front|..];
        assert WithHeight(b[1..], h) == WithHeight(b, h)[|front|..];
      }
      NonIncreasingTail(a);
      NonIncreasingTail(b);
      SortedStableUnique(a[1..], b[1..]);
      assert a == [a[0]] + a[1..];
      assert b == [b[0]] + b[1..];
    }
  }

  lemma NonIncreasingTail(s: seq<Peak>)
    requires s != [] && NonIncreasing(s)
    ensures NonIncreasing(s[1..])
  {
    forall i, j | 0 <= i < j < |s| - 1 ensures s[1..][i].height >= s[1..][j].height {
      assert s[1..][i] == s[i + 1] && s[1..][j] == s[j + 1];
    }
  }

  /** In a non-increasing sequence the top height class starts with `s[0]`. */
  lemma TopClassHead(s: seq<Peak>)
    requires s != [] && NonIncreasing(s)
    ensures WithHeight(s, s[0].height) != [] && WithHeight(s, s[0].height)[0] == s[0]
  {
  }

  /** Every member of a height class has that height, every peak of that
      height is in it, and in a non-increasing sequence nothing in it is
      higher than the first peak. */
  lemma {:induction false} WithHeightMember(s: seq<Peak>, h: real)
    requires s != [] && NonIncreasing(s)
    ensures WithHeight(s, h) != [] ==> h <= s[0].height
  {
    if s[0].height != h && WithHeight(s, h) != [] {
      assert WithHeight(s, h) == WithHeight(s[1..], h);
      NonIncreasingTail(s);
      assert s[1..] != [];
      WithHeightMember(s[1..], h);
      assert s[1..][0] == s[1];
    }
  }
}
