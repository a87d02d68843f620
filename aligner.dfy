/**
 * The alignment loop of `main()` as an object whose fields are the loop
 * variables. `Step` runs one iteration of the outer loop, with the window
 * loop inside it; `Align` runs the outer loop for at most `fuel` iterations.
 * Both are proved against the state machine of module Alignment.
 */
module PageAligner {
  import opened Wrappers
  import opened FileNames
  import opened Rectangles
  import opened GapReport
  import opened Alignment

  class Aligner {
    const whiteDir: string
    const whiteFiles: seq<string>
    const blackFiles: seq<string>
    const debugPage: Option<int>
    const oracles: Oracles

    var whiteIdx: int
    var searchOffset: int
    var searchRadius: nat
    var lastMatchWhiteIdx: int
    var lastMatchWhitePage: int
    var consumed: set<int>
    var matches: seq<Match>

    function Cfg(): Config {
      Config(whiteDir, whiteFiles, blackFiles, debugPage, oracles)
    }

    function Snapshot(): State
      reads this
    {
      State(whiteIdx, searchOffset, searchRadius, lastMatchWhiteIdx, lastMatchWhitePage, consumed, matches)
    }

    predicate Valid()
      reads this
    {
      Inv(Cfg(), Snapshot())
    }

    /** The listings are filtered and sorted as the script does; the loop variables start as before the loop. */
    constructor (whiteDir: string, whiteListing: seq<string>, blackListing: seq<string>,
                 debugPage: Option<int>, oracles: Oracles)
      ensures Cfg() == Config(whiteDir, CaptureListing(whiteListing), CaptureListing(blackListing), debugPage, oracles)
      ensures Snapshot() == Init()
      ensures Valid()
    {
      this.whiteDir := whiteDir;
      this.whiteFiles := CaptureListing(whiteListing);
      this.blackFiles := CaptureListing(blackListing);
      this.debugPage := debugPage;
      this.oracles := oracles;
      whiteIdx := -1;
      searchOffset := 0;
      searchRadius := 0;
      lastMatchWhiteIdx := -1;
      lastMatchWhitePage := -1;
      consumed := {};
      matches := [];
      new;
      InitInv(Cfg());
    }

    /**
     * The window loop for white index wi: the steps from -searchRadius to
     * searchRadius in increasing order, until one matches, sends the cursor
     * back, or indexes outside the black file list.
     */
    method SearchWindow(wi: nat) returns (w: WindowResult)
      ensures w == Window(Cfg(), Snapshot(), wi, FirstStep(Snapshot()))
    {
      for step := -(searchRadius as int) to searchRadius + 1
        invariant Window(Cfg(), Snapshot(), wi, FirstStep(Snapshot())) == Window(Cfg(), Snapshot(), wi, step)
      {
        var blackIdx := wi + searchOffset + step;
        if blackIdx in consumed {
          continue;
        }
        if !(0 <= blackIdx < |blackFiles|) {
          return OutOfRange(step, blackIdx);
        }
        if oracles.similar(wi, blackIdx) {
          return Matched(step, blackIdx, true);
        }
        var numSmallRectangles := CountSmallRectangles(oracles.rectangles(wi, blackIdx));
        if numSmallRectangles <= MaxSmallRectangles {
          return Matched(step, blackIdx, false);
        }
        var lastMatchDistance := wi - lastMatchWhiteIdx;
        if lastMatchDistance > MaxLastMatchDistance {
          return SeekBack(step, blackIdx);
        }
      }
      return Exhausted;
    }

    /**
     * What the branches of the window loop do to the loop variables before
     * they break out of it (and what the outer loop does after it): record a
     * match and print the report, send the cursor back, or stop the script.
     */
    method Conclude(wi: nat, whitePage: int, w: WindowResult) returns (outcome: Outcome)
      requires whiteIdx == wi
      modifies this
      ensures outcome == Settle(old(Snapshot()), wi, whitePage, w)
      ensures outcome.Advanced? ==> Snapshot() == outcome.next
    {
      match w {
        case Exhausted =>
          outcome := Advanced(Snapshot(), []);
        case OutOfRange(_, blackIdx) =>
          outcome := Failed(BlackIndexOutOfRange(blackIdx));
        case SeekBack(_, _) =>
          whiteIdx := lastMatchWhiteIdx;
          searchRadius := searchRadius + 1;
          outcome := Advanced(Snapshot(), []);
        case Matched(step, blackIdx, bySimilarity) =>
          if bySimilarity {
            consumed := consumed + {blackIdx};
            lastMatchWhiteIdx := wi;
            lastMatchWhitePage := whitePage;
            if step != 0 {
              searchOffset := searchOffset + step;
              searchRadius := 0;
            }
          } else {
            lastMatchWhiteIdx := wi;
            lastMatchWhitePage := whitePage;
            searchOffset := searchOffset + step;
          }
          matches := matches + [Match(wi, blackIdx)];
          var report := ReportGaps(LastTen(matches));
          outcome := Advanced(Snapshot(), report);
      }
    }

    /** The window loop for the white page at the cursor, and what follows from how it ends. */
    method ProcessPage(wi: nat, whitePage: int) returns (outcome: Outcome)
      requires whiteIdx == wi
      modifies this
      ensures outcome == Settle(old(Snapshot()), wi, whitePage, Window(Cfg(), old(Snapshot()), wi, FirstStep(old(Snapshot()))))
      ensures outcome.Advanced? ==> Snapshot() == outcome.next
    {
      var w := SearchWindow(wi);
      outcome := Conclude(wi, whitePage, w);
    }

    /** One iteration of the outer loop. */
    method Step() returns (outcome: Outcome)
      requires Valid() && CanStep(Cfg(), Snapshot())
      modifies this
      ensures outcome == Next(Cfg(), old(Snapshot()))
      ensures outcome.Advanced? ==> Snapshot() == outcome.next && Valid()
    {
      ghost var s0 := Snapshot();
      NextPreservesInv(Cfg(), s0);
      whiteIdx := whiteIdx + 1;
      var wi: nat := whiteIdx;
      var whitePage: int;
      match PageOfPath(WhitePath(Cfg(), wi)) {
        case Failure(e) =>
          return Failed(BadWhiteFileName(wi, e));
        case Success(p) =>
          whitePage := p;
      }
      if debugPage.Some? && debugPage.value != 0 {
        if whitePage < debugPage.value {
          return Advanced(Snapshot(), []);
        }
      }
      NextSettlesAtCursor(Cfg(), s0, whitePage);
      outcome := ProcessPage(wi, whitePage);
    }

    /** The outer loop, for at most `fuel` iterations. */
    method Align(fuel: nat) returns (result: RunResult)
      requires Valid()
      modifies this
      ensures result == Run(Cfg(), old(Snapshot()), fuel)
      ensures !result.Aborted? ==> Snapshot() == result.state
    {
      ghost var goal := Run(Cfg(), Snapshot(), fuel);
      var f := fuel;
      while whiteIdx < |whiteFiles| - 1
        invariant Valid()
        invariant Run(Cfg(), Snapshot(), f) == goal
        decreases f
      {
        if f == 0 {
          RunNoFuel(Cfg(), Snapshot());
          return OutOfFuel(Snapshot());
        }
        var before := Snapshot();
        var outcome := Step();
        if outcome.Failed? {
          RunUnfold(Cfg(), before, f);
          return Aborted(before, outcome.error);
        }
        RunAdvances(Cfg(), before, f, goal, outcome);
        assert Snapshot() == outcome.next;
        f := f - 1;
        assert Run(Cfg(), Snapshot(), f) == goal;
      }
      RunDone(Cfg(), Snapshot(), f);
      return Finished(Snapshot());
    }
  }
}
