/**
 * The fallback verdict of the page aligner: when two captures are not
 * similar enough, the rectangles found in their difference image are
 * counted, and a pair whose difference consists of few small rectangles is
 * still accepted as a match.
 */
module Rectangles {

  /** A rectangle smaller than this in either dimension is "small". */
  const CropMinWidth := 30
  const CropMinHeight := 30

  /** A pair with at most this many small rectangles is an actual match. */
  const MaxSmallRectangles := 10

  /** A bounding rectangle (x, y, w, h) found in a difference image. */
  datatype Rect = Rect(x: int, y: int, w: int, h: int)

  predicate IsSmall(r: Rect) {
    r.w < CropMinWidth || r.h < CropMinHeight
  }

  /** Number of small rectangles, counted from the front. */
  function SmallCount(rects: seq<Rect>): (n: nat)
    ensures n <= |rects|
  {
    if rects == [] then 0
    else SmallCount(rects[..|rects| - 1]) + (if IsSmall(rects[|rects| - 1]) then 1 else 0)
  }

  /** Positions of the small rectangles: an independent description of the count. */
  function SmallPositions(rects: seq<Rect>): set<nat> {
    set i: nat | i < |rects| && IsSmall(rects[i])
  }

  lemma {:induction false} SmallCountIsNumberOfSmallPositions(rects: seq<Rect>)
    ensures SmallCount(rects) == |SmallPositions(rects)|
  {
    if rects != [] {
      var n := |rects| - 1;
      var front := rects[..n];
      SmallCountIsNumberOfSmallPositions(front);
      assert forall i: nat :: i < n ==> front[i] == rects[i];
      if IsSmall(rects[n]) {
        assert SmallPositions(rects) == SmallPositions(front) + {n};
      } else {
        assert SmallPositions(rects) == SmallPositions(front);
      }
    }
  }

  /** The counter loop over the rectangle list. */
  method CountSmallRectangles(rects: seq<Rect>) returns (n: nat)
    ensures n == SmallCount(rects)
  {
    n := 0;
    for i := 0 to |rects|
      invariant n == SmallCount(rects[..i])
    {
      assert rects[..i + 1][..i] == rects[..i];
      var r := rects[i];
      if r.w < CropMinWidth || r.h < CropMinHeight {
        n := n + 1;
        continue;
      }
    }
    assert rects[..|rects|] == rects;
  }

  /** The fallback verdict: true for an actual match, false for an actual mismatch. */
  predicate AcceptsPair(rects: seq<Rect>) {
    SmallCount(rects) <= MaxSmallRectangles
  }

  lemma {:induction false} SmallCountAppend(a: seq<Rect>, b: seq<Rect>)
    ensures SmallCount(a + b) == SmallCount(a) + SmallCount(b)
    decreases |b|
  {
    if b == [] {
      assert a + b == a;
    } else {
      var n := |b| - 1;
      assert (a + b)[..|a + b| - 1] == a + b[..n];
      assert (a + b)[|a + b| - 1] == b[n];
      SmallCountAppend(a, b[..n]);
    }
  }

  /** Rectangles of at least 30x30 never change the verdict. */
  lemma LargeRectanglesDoNotMatter(rects: seq<Rect>, large: seq<Rect>)
    requires forall i :: 0 <= i < |large| ==> !IsSmall(large[i])
    ensures AcceptsPair(rects + large) == AcceptsPair(rects)
  {
    SmallCountAppend(rects, large);
    SmallCountIsNumberOfSmallPositions(large);
    assert SmallPositions(large) == {};
  }

  /** More rectangles can only turn an acceptance into a rejection, never the reverse. */
  lemma MoreRectanglesNeverAccept(rects: seq<Rect>, more: seq<Rect>)
    ensures AcceptsPair(rects + more) ==> AcceptsPair(rects)
  {
    SmallCountAppend(rects, more);
  }

  lemma {:induction false} AllSmallCount(rects: seq<Rect>)
    requires forall i :: 0 <= i < |rects| ==> IsSmall(rects[i])
    ensures SmallCount(rects) == |rects|
  {
    if rects != [] {
      AllSmallCount(rects[..|rects| - 1]);
    }
  }

  /** Any difference of at most ten rectangles is accepted; eleven small ones are not. */
  lemma VerdictThreshold(rects: seq<Rect>)
    ensures |rects| <= MaxSmallRectangles ==> AcceptsPair(rects)
    ensures (|rects| > MaxSmallRectangles && forall i :: 0 <= i < |rects| ==> IsSmall(rects[i])) ==> !AcceptsPair(rects)
  {
    if forall i :: 0 <= i < |rects| ==> IsSmall(rects[i]) {
      AllSmallCount(rects);
    }
  }
}
