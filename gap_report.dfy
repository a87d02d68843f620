/**
 * The "last 10 matches" report printed after each match: for each match of
 * the tail, the white and black indices skipped since the previous match of
 * the tail are listed as extra pages, followed by the matched pair itself.
 */
module GapReport {
  import opened Wrappers

  /** A matched pair (white index, black index). */
  datatype Match = Match(white: nat, black: nat)

  /** One printed line of the report. */
  datatype ReportLine = ExtraWhite(index: nat) | ExtraBlack(index: nat) | Paired(white: nat, black: nat)

  /** matches[-10:] */
  function LastTen(matches: seq<Match>): (tail: seq<Match>)
    ensures |tail| == if |matches| <= 10 then |matches| else 10
    ensures tail == matches[|matches| - |tail|..]
  {
    if |matches| <= 10 then matches else matches[|matches| - 10..]
  }

  /** Extra-white lines for the indices strictly between `lo` and `hi`, in increasing order. */
  function ExtraWhites(lo: nat, hi: nat): (lines: seq<ReportLine>)
    ensures |lines| == if lo + 1 < hi then hi - lo - 1 else 0
    ensures forall j :: 0 <= j < |lines| ==> lines[j] == ExtraWhite(lo + 1 + j)
    decreases hi
  {
    if lo + 1 < hi then ExtraWhites(lo, hi - 1) + [ExtraWhite(hi - 1)] else []
  }

  /** Extra-black lines for the indices strictly between `lo` and `hi`, in increasing order. */
  function ExtraBlacks(lo: nat, hi: nat): (lines: seq<ReportLine>)
    ensures |lines| == if lo + 1 < hi then hi - lo - 1 else 0
    ensures forall j :: 0 <= j < |lines| ==> lines[j] == ExtraBlack(lo + 1 + j)
    decreases hi
  {
    if lo + 1 < hi then ExtraBlacks(lo, hi - 1) + [ExtraBlack(hi - 1)] else []
  }

  /** The lines printed for match `m`, given the match of the tail printed before it, if any. */
  function PairLines(previous: Option<Match>, m: Match): seq<ReportLine> {
    match previous
    case None => [Paired(m.white, m.black)]
    case Some(p) => ExtraWhites(p.white, m.white) + ExtraBlacks(p.black, m.black) + [Paired(m.white, m.black)]
  }

  /** The lines printed for the k-th match of the tail. */
  function Block(tail: seq<Match>, k: nat): seq<ReportLine>
    requires k < |tail|
  {
    PairLines(if k == 0 then None else Some(tail[k - 1]), tail[k])
  }

  /** The whole report, one block of lines per match of the tail. */
  function Report(tail: seq<Match>): (report: seq<seq<ReportLine>>)
    ensures |report| == |tail|
  {
    seq(|tail|, k requires 0 <= k < |tail| => Block(tail, k))
  }

  /** The nested loops that print the report. */
  method ReportGaps(tail: seq<Match>) returns (report: seq<seq<ReportLine>>)
    ensures report == Report(tail)
  {
    report := [];
    var lwi: int, lbi: int := -1, -1;
    for k := 0 to |tail|
      invariant |report| == k
      invariant forall j :: 0 <= j < k ==> report[j] == Block(tail, j)
      invariant k == 0 ==> lwi == -1 && lbi == -1
      invariant k > 0 ==> lwi == tail[k - 1].white && lbi == tail[k - 1].black
    {
      var m := tail[k];
      var lines: seq<ReportLine> := [];
      if lwi != -1 && lwi + 1 < m.white {
        var lo: nat := lwi;
        for i: nat := lo + 1 to m.white
          invariant lines == ExtraWhites(lo, i)
        {
          lines := lines + [ExtraWhite(i)];
        }
      }
      assert lines == if k == 0 then [] else ExtraWhites(lwi, m.white);
      ghost var whites := lines;
      if lbi != -1 && lbi + 1 < m.black {
        var lo: nat := lbi;
        for i: nat := lo + 1 to m.black
          invariant lines == whites + ExtraBlacks(lo, i)
        {
          lines := lines + [ExtraBlack(i)];
        }
      }
      assert lines == whites + if k == 0 then [] else ExtraBlacks(lbi, m.black);
      lines := lines + [Paired(m.white, m.black)];
      assert lines == Block(tail, k);
      report := report + [lines];
      lwi, lbi := m.white, m.black;
    }
  }

  /** Index i lies strictly between the white indices of matches k-1 and k. */
  predicate WhiteGapAt(tail: seq<Match>, k: int, i: nat) {
    1 <= k < |tail| && tail[k - 1].white < i < tail[k].white
  }

  /** Index i lies strictly between the black indices of matches k-1 and k. */
  predicate BlackGapAt(tail: seq<Match>, k: int, i: nat) {
    1 <= k < |tail| && tail[k - 1].black < i < tail[k].black
  }

  /**
   * The block of match k lists white index i as an extra page exactly when
   * i lies strictly between the white indices of matches k-1 and k.
   */
  lemma ExtraWhiteReported(tail: seq<Match>, k: nat, i: nat)
    requires k < |tail|
    ensures ExtraWhite(i) in Report(tail)[k] <==> WhiteGapAt(tail, k, i)
  {
    if k > 0 {
      var whites := ExtraWhites(tail[k - 1].white, tail[k].white);
      if WhiteGapAt(tail, k, i) {
        assert whites[i - tail[k - 1].white - 1] == ExtraWhite(i);
      }
    }
  }

  /**
   * The block of match k lists black index i as an extra page exactly when
   * i lies strictly between the black indices of matches k-1 and k.
   */
  lemma ExtraBlackReported(tail: seq<Match>, k: nat, i: nat)
    requires k < |tail|
    ensures ExtraBlack(i) in Report(tail)[k] <==> BlackGapAt(tail, k, i)
  {
    if k > 0 {
      var blacks := ExtraBlacks(tail[k - 1].black, tail[k].black);
      if BlackGapAt(tail, k, i) {
        assert blacks[i - tail[k - 1].black - 1] == ExtraBlack(i);
      }
    }
  }

  /** Each block ends with its own match, and that is the only pair line in it. */
  lemma BlockEndsWithItsMatch(tail: seq<Match>, k: nat)
    requires k < |tail|
    ensures Report(tail)[k][|Report(tail)[k]| - 1] == Paired(tail[k].white, tail[k].black)
    ensures forall j :: 0 <= j < |Report(tail)[k]| - 1 ==> !Report(tail)[k][j].Paired?
  {
  }
}
