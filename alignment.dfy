/**
 * The page-alignment matcher as a state machine over values: one call of
 * `Next` is one iteration of the outer `while` loop of `main()`, and `Run`
 * iterates it with explicit fuel. The image comparisons are oracles.
 */
module Alignment {
  import opened Wrappers
  import opened FileNames
  import opened Rectangles
  import opened GapReport

  /** After this many unmatched white pages a rejected pair makes the matcher seek back. */
  const MaxLastMatchDistance := 5

  /** The debug filter hard-coded in the script: white pages below 61 are skipped. */
  const ScriptDebugPage: Option<int> := Some(61)

  /**
   * The image comparisons, indexed by (white index, black index):
   * `similar` stands for "SSIM of the inverted white page and the black page
   * is at least 0.9", `rectangles` for the rectangles found in their diff image.
   */
  datatype Oracles = Oracles(similar: (nat, nat) -> bool, rectangles: (nat, nat) -> seq<Rect>)

  /** What the loop reads but never changes. */
  datatype Config = Config(
    whiteDir: string,
    whiteFiles: seq<string>,
    blackFiles: seq<string>,
    debugPage: Option<int>,
    oracles: Oracles)

  /** The loop variables of `main()`. */
  datatype State = State(
    whiteIdx: int,
    searchOffset: int,
    searchRadius: nat,
    lastMatchWhiteIdx: int,
    lastMatchWhitePage: int,
    consumed: set<int>,
    matches: seq<Match>)

  /** The values the loop variables have before the loop. */
  function Init(): State {
    State(-1, 0, 0, -1, -1, {}, [])
  }

  /** The path of the white page with index i, as the script joins it. */
  function WhitePath(cfg: Config, i: nat): string
    requires i < |cfg.whiteFiles|
  {
    cfg.whiteDir + "/" + cfg.whiteFiles[i]
  }

  /** Python's `if debug_page: if white_page < debug_page: continue` (0 and None are falsy). */
  predicate SkippedByDebugPage(debugPage: Option<int>, page: int) {
    debugPage.Some? && debugPage.value != 0 && page < debugPage.value
  }

  /** The first step of the window: `range(-1 * search_radius, ...)` starts there. */
  function FirstStep(s: State): int {
    -(s.searchRadius as int)
  }

  /** The white index the next iteration processes: the cursor is incremented before use. */
  function Current(s: State): nat
    requires s.whiteIdx >= -1
  {
    s.whiteIdx + 1
  }

  /** The black index tried at `step` of the window of white index wi. */
  function Candidate(s: State, wi: int, step: int): int {
    wi + s.searchOffset + step
  }

  predicate InRange(cfg: Config, b: int) {
    0 <= b < |cfg.blackFiles|
  }

  /** The pair is taken as a match: similar, or few enough small diff rectangles. */
  predicate Accepted(cfg: Config, wi: nat, b: nat) {
    cfg.oracles.similar(wi, b) || AcceptsPair(cfg.oracles.rectangles(wi, b))
  }

  /** More than `MaxLastMatchDistance` white pages since the last match. */
  predicate FarFromLastMatch(s: State, wi: int) {
    wi - s.lastMatchWhiteIdx > MaxLastMatchDistance
  }

  /** The window loop goes on past `step`: its black index is consumed, or it is rejected close to the last match. */
  predicate Passed(cfg: Config, s: State, wi: nat, step: int) {
    var b := Candidate(s, wi, step);
    b in s.consumed || (InRange(cfg, b) && !Accepted(cfg, wi, b) && !FarFromLastMatch(s, wi))
  }

  /** How the window loop ends. */
  datatype WindowResult =
    | Matched(step: int, black: nat, bySimilarity: bool)
    | SeekBack(step: int, black: nat)
    | OutOfRange(step: int, index: int)
    | Exhausted

  /** The window loop for white index wi, from `step` up to `searchRadius`. */
  function Window(cfg: Config, s: State, wi: nat, step: int): (w: WindowResult)
    requires FirstStep(s) <= step <= s.searchRadius + 1
    ensures !w.Exhausted? ==> step <= w.step <= s.searchRadius
    decreases s.searchRadius + 1 - step
  {
    if step > s.searchRadius then Exhausted
    else
      var b := Candidate(s, wi, step);
      if b in s.consumed then Window(cfg, s, wi, step + 1)
      else if !InRange(cfg, b) then OutOfRange(step, b)
      else if cfg.oracles.similar(wi, b) then Matched(step, b, true)
      else if AcceptsPair(cfg.oracles.rectangles(wi, b)) then Matched(step, b, false)
      else if FarFromLastMatch(s, wi) then SeekBack(step, b)
      else Window(cfg, s, wi, step + 1)
  }

  /**
   * How the window loop ends: at the first step that is not passed, with a
   * match when the pair is accepted, a seek-back when it is rejected far from
   * the last match, an error when the black index is out of range; or with
   * every step passed.
   */
  lemma {:induction false} WindowOutcome(cfg: Config, s: State, wi: nat, step: int)
    requires FirstStep(s) <= step <= s.searchRadius + 1
    ensures var w := Window(cfg, s, wi, step);
      (w.Matched? || w.SeekBack?) ==> w.black == Candidate(s, wi, w.step) && w.black !in s.consumed
    ensures var w := Window(cfg, s, wi, step);
      w.OutOfRange? ==> w.index == Candidate(s, wi, w.step) && w.index !in s.consumed
    ensures var w := Window(cfg, s, wi, step);
      !w.Exhausted? ==> forall j :: step <= j < w.step ==> Passed(cfg, s, wi, j)
    ensures var w := Window(cfg, s, wi, step);
      w.Exhausted? ==> forall j :: step <= j <= s.searchRadius ==> Passed(cfg, s, wi, j)
    ensures var w := Window(cfg, s, wi, step);
      w.Matched? ==> InRange(cfg, w.black) && Accepted(cfg, wi, w.black)
    ensures var w := Window(cfg, s, wi, step);
      w.Matched? ==> w.bySimilarity == cfg.oracles.similar(wi, w.black)
    ensures var w := Window(cfg, s, wi, step);
      w.SeekBack? ==> InRange(cfg, w.black) && !Accepted(cfg, wi, w.black) && FarFromLastMatch(s, wi)
    ensures var w := Window(cfg, s, wi, step);
      w.OutOfRange? ==> !InRange(cfg, w.index)
    decreases s.searchRadius + 1 - step
  {
    if step <= s.searchRadius && Candidate(s, wi, step) in s.consumed {
      WindowOutcome(cfg, s, wi, step + 1);
    } else if step <= s.searchRadius && Passed(cfg, s, wi, step) {
      WindowOutcome(cfg, s, wi, step + 1);
    }
  }

  /** Steps that are all passed do not change how the window loop ends. */
  lemma {:induction false} WindowSkipsPassed(cfg: Config, s: State, wi: nat, lo: int, hi: int)
    requires FirstStep(s) <= lo <= hi <= s.searchRadius + 1
    requires forall j :: lo <= j < hi ==> Passed(cfg, s, wi, j)
    ensures Window(cfg, s, wi, lo) == Window(cfg, s, wi, hi)
    decreases hi - lo
  {
    if lo < hi {
      assert Passed(cfg, s, wi, lo);
      WindowSkipsPassed(cfg, s, wi, lo + 1, hi);
    }
  }

  /** The window loop reads the offset, radius, consumed set and last match, not the cursor. */
  lemma {:induction false} WindowIgnoresCursor(cfg: Config, s: State, wi: nat, step: int, cursor: int)
    requires FirstStep(s) <= step <= s.searchRadius + 1
    ensures Window(cfg, s.(whiteIdx := cursor), wi, step) == Window(cfg, s, wi, step)
    decreases s.searchRadius + 1 - step
  {
    if step <= s.searchRadius {
      WindowIgnoresCursor(cfg, s, wi, step + 1, cursor);
    }
  }

  /** Errors that end the script. */
  datatype AlignError =
    | BadWhiteFileName(whiteIdx: nat, reason: ParseError)
    | BlackIndexOutOfRange(blackIdx: int)

  /** One iteration of the outer loop: the new loop variables and the printed report, or an error. */
  datatype Outcome = Advanced(next: State, report: seq<seq<ReportLine>>) | Failed(error: AlignError)

  /** The outer loop's condition, together with the lower bound the cursor always keeps. */
  predicate CanStep(cfg: Config, s: State) {
    -1 <= s.whiteIdx < |cfg.whiteFiles| - 1
  }

  /** The new loop variables once the window loop has ended with `w`. */
  function Settle(s: State, wi: nat, page: int, w: WindowResult): (o: Outcome) {
    match w
    case Exhausted => Advanced(s.(whiteIdx := wi), [])
    case OutOfRange(_, b) => Failed(BlackIndexOutOfRange(b))
    case SeekBack(_, _) =>
      Advanced(s.(whiteIdx := s.lastMatchWhiteIdx, searchRadius := s.searchRadius + 1), [])
    case Matched(step, b, bySimilarity) =>
      var matches := s.matches + [Match(wi, b)];
      var next :=
        if bySimilarity then
          s.(whiteIdx := wi, consumed := s.consumed + {b},
             lastMatchWhiteIdx := wi, lastMatchWhitePage := page,
             searchOffset := if step != 0 then s.searchOffset + step else s.searchOffset,
             searchRadius := if step != 0 then 0 else s.searchRadius,
             matches := matches)
        else
          s.(whiteIdx := wi, lastMatchWhiteIdx := wi, lastMatchWhitePage := page,
             searchOffset := s.searchOffset + step, matches := matches);
      Advanced(next, Report(LastTen(matches)))
  }

  /**
   * How the inner loop ended decides the iteration: it raises exactly when the
   * loop stopped at an index outside the black list, and it prints a report and
   * appends a match exactly when the loop broke on a match; otherwise the matches
   * and the consumed black indices stay as they were.
   */
  lemma SettleOutcomes(s: State, wi: nat, page: int, w: WindowResult)
    ensures Settle(s, wi, page, w).Failed? <==> w.OutOfRange?
    ensures var o := Settle(s, wi, page, w);
      o.Advanced? ==> (o.report != [] <==> w.Matched?)
    ensures var o := Settle(s, wi, page, w);
      w.Matched? ==> o.next.matches == s.matches + [Match(wi, w.black)]
    ensures var o := Settle(s, wi, page, w);
      o.Advanced? && !w.Matched? ==> o.next.matches == s.matches && o.next.consumed == s.consumed
  {
    if w.Matched? {
      var matches := s.matches + [Match(wi, w.black)];
      assert |LastTen(matches)| >= 1;
    }
  }

  /** Settle sets the cursor itself: it does not read it. */
  lemma SettleIgnoresCursor(s: State, wi: nat, page: int, w: WindowResult)
    ensures Settle(s.(whiteIdx := wi), wi, page, w) == Settle(s, wi, page, w)
  {
  }

  /** One iteration of the outer loop. */
  function Next(cfg: Config, s: State): Outcome
    requires CanStep(cfg, s)
  {
    var wi := Current(s);
    match PageOfPath(WhitePath(cfg, wi))
    case Failure(e) => Failed(BadWhiteFileName(wi, e))
    case Success(page) =>
      if SkippedByDebugPage(cfg.debugPage, page) then Advanced(s.(whiteIdx := wi), [])
      else Settle(s, wi, page, Window(cfg, s, wi, FirstStep(s)))
  }

  /** The white page that comes next has a file name that parses, and the debug filter lets it through. */
  predicate Processed(cfg: Config, s: State, page: int)
    requires CanStep(cfg, s)
  {
    PageOfPath(WhitePath(cfg, Current(s))) == Success(page) && !SkippedByDebugPage(cfg.debugPage, page)
  }

  /** `step` is tried, and every earlier step of the window was passed. */
  predicate FirstTried(cfg: Config, s: State, step: int) {
    && FirstStep(s) <= step <= s.searchRadius
    && s.whiteIdx >= -1
    && forall j :: FirstStep(s) <= j < step ==> Passed(cfg, s, Current(s), j)
  }

  /** For a processed white page, the iteration is settled by how its window loop ends. */
  lemma NextSettles(cfg: Config, s: State, page: int)
    requires CanStep(cfg, s) && Processed(cfg, s, page)
    ensures Next(cfg, s) == Settle(s, Current(s), page, Window(cfg, s, Current(s), FirstStep(s)))
  {
  }

  /** The same, seen from the state in which the cursor already points at the page. */
  lemma NextSettlesAtCursor(cfg: Config, s: State, page: int)
    requires CanStep(cfg, s) && Processed(cfg, s, page)
    ensures var t := s.(whiteIdx := Current(s));
      Next(cfg, s) == Settle(t, Current(s), page, Window(cfg, t, Current(s), FirstStep(t)))
  {
    WindowIgnoresCursor(cfg, s, Current(s), FirstStep(s), Current(s));
    SettleIgnoresCursor(s, Current(s), page, Window(cfg, s, Current(s), FirstStep(s)));
  }

  /**
   * An iteration appends at most one match, for the white page it processes,
   * and prints the last-10 report exactly when it appends one.
   */
  lemma NextAppendsOnlyCurrentMatch(cfg: Config, s: State)
    requires CanStep(cfg, s)
    ensures var o := Next(cfg, s);
      o.Advanced? && o.report == [] ==> o.next.matches == s.matches
    ensures var o := Next(cfg, s);
      o.Advanced? && o.report != [] ==>
        && |o.next.matches| == |s.matches| + 1
        && o.next.matches[..|s.matches|] == s.matches
        && o.next.matches[|s.matches|].white == Current(s)
        && o.report == Report(LastTen(o.next.matches))
  {
    var o := Next(cfg, s);
    if o.Advanced? {
      match PageOfPath(WhitePath(cfg, Current(s)))
      case Failure(_) =>
      case Success(page) =>
        if !SkippedByDebugPage(cfg.debugPage, page) {
          var w := Window(cfg, s, Current(s), FirstStep(s));
          assert o == Settle(s, Current(s), page, w);
          if w.Matched? {
            assert o.next.matches == s.matches + [Match(Current(s), w.black)];
          }
        }
    }
  }

  /** A file name without a leading integer aborts the script. */
  lemma BadFileNameAborts(cfg: Config, s: State)
    requires CanStep(cfg, s)
    requires PageOfPath(WhitePath(cfg, Current(s))).Failure?
    ensures Next(cfg, s).Failed? && Next(cfg, s).error.BadWhiteFileName?
    ensures Next(cfg, s).error.whiteIdx == Current(s)
  {
  }

  /** A page below the debug page only moves the cursor. */
  lemma DebugPageSkips(cfg: Config, s: State, page: int)
    requires CanStep(cfg, s)
    requires PageOfPath(WhitePath(cfg, Current(s))) == Success(page)
    requires SkippedByDebugPage(cfg.debugPage, page)
    ensures Next(cfg, s) == Advanced(s.(whiteIdx := Current(s)), [])
  {
  }

  /** With no debug page, or a debug page of 0, no white page is skipped. */
  lemma NoDebugPageSkipsNothing(page: int)
    ensures !SkippedByDebugPage(None, page) && !SkippedByDebugPage(Some(0), page)
  {
  }

  /**
   * With the script's hard-coded debug page, a white page numbered below 61
   * only moves the cursor, and every later page is processed.
   */
  lemma ScriptDebugPageSkipsEarlyPages(cfg: Config, s: State, page: int)
    requires CanStep(cfg, s) && cfg.debugPage == ScriptDebugPage
    requires PageOfPath(WhitePath(cfg, Current(s))) == Success(page)
    ensures page < 61 ==> Next(cfg, s) == Advanced(s.(whiteIdx := Current(s)), [])
    ensures page >= 61 <==> Processed(cfg, s, page)
  {
    if page < 61 {
      DebugPageSkips(cfg, s, page);
    }
  }

  /**
   * A similar pair at the first step that is not passed: the black index is
   * consumed, the last match moves to this white page, and the window is
   * re-centred on this step with radius 0 unless the step is 0.
   */
  lemma SimilarityMatch(cfg: Config, s: State, page: int, step: int)
    requires CanStep(cfg, s) && Processed(cfg, s, page) && FirstTried(cfg, s, step)
    requires Candidate(s, Current(s), step) !in s.consumed
    requires InRange(cfg, Candidate(s, Current(s), step))
    requires cfg.oracles.similar(Current(s), Candidate(s, Current(s), step))
    ensures var o := Next(cfg, s); var b := Candidate(s, Current(s), step);
      && o.Advanced?
      && o.next.whiteIdx == Current(s)
      && o.next.consumed == s.consumed + {b}
      && o.next.lastMatchWhiteIdx == Current(s)
      && o.next.lastMatchWhitePage == page
      && o.next.matches == s.matches + [Match(Current(s), b)]
      && o.report == Report(LastTen(o.next.matches))
    ensures var o := Next(cfg, s);
      step != 0 ==> o.next.searchOffset == s.searchOffset + step && o.next.searchRadius == 0
    ensures var o := Next(cfg, s);
      step == 0 ==> o.next.searchOffset == s.searchOffset && o.next.searchRadius == s.searchRadius
  {
    WindowSkipsPassed(cfg, s, Current(s), FirstStep(s), step);
  }

  /**
   * A dissimilar pair with at most `MaxSmallRectangles` small diff rectangles at
   * the first step that is not passed: the offset moves by the step and the last
   * match moves to this white page, but nothing is consumed and the radius stays.
   */
  lemma RectangleMatch(cfg: Config, s: State, page: int, step: int)
    requires CanStep(cfg, s) && Processed(cfg, s, page) && FirstTried(cfg, s, step)
    requires Candidate(s, Current(s), step) !in s.consumed
    requires InRange(cfg, Candidate(s, Current(s), step))
    requires !cfg.oracles.similar(Current(s), Candidate(s, Current(s), step))
    requires SmallCount(cfg.oracles.rectangles(Current(s), Candidate(s, Current(s), step))) <= MaxSmallRectangles
    ensures var o := Next(cfg, s); var b := Candidate(s, Current(s), step);
      && o.Advanced?
      && o.next.whiteIdx == Current(s)
      && o.next.consumed == s.consumed
      && o.next.searchOffset == s.searchOffset + step
      && o.next.searchRadius == s.searchRadius
      && o.next.lastMatchWhiteIdx == Current(s)
      && o.next.lastMatchWhitePage == page
      && o.next.matches == s.matches + [Match(Current(s), b)]
      && o.report == Report(LastTen(o.next.matches))
  {
    WindowSkipsPassed(cfg, s, Current(s), FirstStep(s), step);
  }

  /**
   * A rejected pair more than `MaxLastMatchDistance` pages after the last match:
   * the cursor goes back to the last match, so that the page after it comes
   * next, and the radius grows by one; nothing else changes.
   */
  lemma SeekBackOnRejectedPair(cfg: Config, s: State, page: int, step: int)
    requires CanStep(cfg, s) && Processed(cfg, s, page) && FirstTried(cfg, s, step)
    requires Candidate(s, Current(s), step) !in s.consumed
    requires InRange(cfg, Candidate(s, Current(s), step))
    requires !Accepted(cfg, Current(s), Candidate(s, Current(s), step))
    requires FarFromLastMatch(s, Current(s))
    ensures Next(cfg, s) ==
      Advanced(s.(whiteIdx := s.lastMatchWhiteIdx, searchRadius := s.searchRadius + 1), [])
    ensures Next(cfg, s).next.whiteIdx + 1 <= Current(s) - MaxLastMatchDistance
  {
    WindowSkipsPassed(cfg, s, Current(s), FirstStep(s), step);
  }

  /** A black index outside the black file list that is not consumed aborts the script. */
  lemma BlackIndexOutOfRangeAborts(cfg: Config, s: State, page: int, step: int)
    requires CanStep(cfg, s) && Processed(cfg, s, page) && FirstTried(cfg, s, step)
    requires Candidate(s, Current(s), step) !in s.consumed
    requires !InRange(cfg, Candidate(s, Current(s), step))
    ensures Next(cfg, s) == Failed(BlackIndexOutOfRange(Candidate(s, Current(s), step)))
  {
    WindowSkipsPassed(cfg, s, Current(s), FirstStep(s), step);
  }

  /** When every step is passed, the white page stays unmatched and only the cursor moves. */
  lemma WindowExhausted(cfg: Config, s: State, page: int)
    requires CanStep(cfg, s) && Processed(cfg, s, page)
    requires forall j :: FirstStep(s) <= j <= s.searchRadius ==> Passed(cfg, s, Current(s), j)
    ensures Next(cfg, s) == Advanced(s.(whiteIdx := Current(s)), [])
  {
    WindowSkipsPassed(cfg, s, Current(s), FirstStep(s), s.searchRadius + 1);
  }

  /** White page i has a file name that parses, and the debug filter lets it through. */
  predicate PassesDebugFilter(cfg: Config, i: nat) {
    && i < |cfg.whiteFiles|
    && PageOfPath(WhitePath(cfg, i)).Success?
    && !SkippedByDebugPage(cfg.debugPage, PageOfPath(WhitePath(cfg, i)).value)
  }

  /** Every matched white page passed the debug filter. */
  predicate AllPassDebugFilter(cfg: Config, matches: seq<Match>)
    decreases |matches|
  {
    matches == [] ||
      (AllPassDebugFilter(cfg, matches[..|matches| - 1]) && PassesDebugFilter(cfg, matches[|matches| - 1].white))
  }

  /** Some match has black index b. */
  predicate MatchedBlack(matches: seq<Match>, b: int) {
    exists i :: 0 <= i < |matches| && matches[i].black == b
  }

  /** The white indices of the matches strictly increase. */
  predicate WhitesIncreasing(matches: seq<Match>) {
    forall i, j :: 0 <= i < j < |matches| ==> matches[i].white < matches[j].white
  }

  /** What holds of the loop variables at the top of every iteration. */
  predicate Inv(cfg: Config, s: State) {
    && -1 <= s.lastMatchWhiteIdx <= s.whiteIdx < |cfg.whiteFiles|
    && (s.matches == [] ==> s.lastMatchWhiteIdx == -1 && s.lastMatchWhitePage == -1)
    && (s.matches != [] ==> s.matches[|s.matches| - 1].white == s.lastMatchWhiteIdx)
    && WhitesIncreasing(s.matches)
    && (forall i :: 0 <= i < |s.matches| ==> s.matches[i].black < |cfg.blackFiles|)
    && (forall b :: b in s.consumed ==> MatchedBlack(s.matches, b))
  }

  /**
   * What the loop variables record about page numbers: the page of the last
   * match is the one its file name gives, and every matched white page passed
   * the debug filter.
   */
  predicate PagesRecorded(cfg: Config, s: State) {
    && (s.matches != [] ==>
         && 0 <= s.lastMatchWhiteIdx < |cfg.whiteFiles|
         && PageOfPath(WhitePath(cfg, s.lastMatchWhiteIdx)) == Success(s.lastMatchWhitePage))
    && AllPassDebugFilter(cfg, s.matches)
  }

  /** Both invariants hold before the first iteration. */
  lemma InitInv(cfg: Config)
    ensures Inv(cfg, Init()) && PagesRecorded(cfg, Init())
  {
  }

  /** Every consumed black index is a valid index into the black file list. */
  lemma ConsumedInRange(cfg: Config, s: State, b: int)
    requires Inv(cfg, s) && b in s.consumed
    ensures InRange(cfg, b)
  {
    var i :| 0 <= i < |s.matches| && s.matches[i].black == b;
  }

  /** Every white index of increasing matches is at most the last one. */
  lemma MatchesUpToLast(matches: seq<Match>)
    requires WhitesIncreasing(matches) && matches != []
    ensures forall i :: 0 <= i < |matches| ==> matches[i].white <= matches[|matches| - 1].white
  {
    forall i | 0 <= i < |matches| - 1
      ensures matches[i].white <= matches[|matches| - 1].white
    {
      assert matches[i].white < matches[|matches| - 1].white;
    }
  }

  /** A match whose white index exceeds all earlier ones keeps the whites increasing. */
  lemma IncreasingAppend(matches: seq<Match>, m: Match)
    requires WhitesIncreasing(matches)
    requires matches != [] ==> matches[|matches| - 1].white < m.white
    ensures WhitesIncreasing(matches + [m])
  {
    var next := matches + [m];
    if matches != [] {
      MatchesUpToLast(matches);
    }
    forall i, j | 0 <= i < j < |next|
      ensures next[i].white < next[j].white
    {
      assert next[i] == matches[i];
      if j < |matches| {
        assert next[j] == matches[j];
      }
    }
  }

  /** Black indices matched before stay matched after appending a match. */
  lemma MatchedBlackAppend(matches: seq<Match>, m: Match, c: int)
    requires MatchedBlack(matches, c) || c == m.black
    ensures MatchedBlack(matches + [m], c)
  {
    var next := matches + [m];
    if c == m.black {
      assert next[|matches|].black == c;
    } else {
      var i :| 0 <= i < |matches| && matches[i].black == c;
      assert next[i].black == c;
    }
  }

  /** Recording a match of white page wi, after every earlier match, keeps the invariant. */
  lemma RecordMatchKeepsInv(cfg: Config, s: State, next: State, wi: nat, b: nat)
    requires Inv(cfg, s)
    requires s.whiteIdx < wi < |cfg.whiteFiles| && b < |cfg.blackFiles|
    requires next.whiteIdx == wi && next.lastMatchWhiteIdx == wi
    requires next.matches == s.matches + [Match(wi, b)]
    requires next.consumed == s.consumed || next.consumed == s.consumed + {b}
    ensures Inv(cfg, next)
  {
    var n := |s.matches|;
    IncreasingAppend(s.matches, Match(wi, b));
    forall i | 0 <= i < n + 1
      ensures next.matches[i].black < |cfg.blackFiles|
    {
      if i < n {
        assert next.matches[i] == s.matches[i];
      }
    }
    forall c | c in next.consumed
      ensures MatchedBlack(next.matches, c)
    {
      MatchedBlackAppend(s.matches, Match(wi, b), c);
    }
  }

  /** Appending the match of the current white page keeps the invariant. */
  lemma MatchKeepsInv(cfg: Config, s: State, page: int, step: int, b: nat, bySimilarity: bool)
    requires Inv(cfg, s) && CanStep(cfg, s)
    requires InRange(cfg, b)
    ensures Inv(cfg, Settle(s, Current(s), page, Matched(step, b, bySimilarity)).next)
  {
    var next := Settle(s, Current(s), page, Matched(step, b, bySimilarity)).next;
    assert next.consumed == s.consumed || next.consumed == s.consumed + {b};
    RecordMatchKeepsInv(cfg, s, next, Current(s), b);
  }

  /** Moving the cursor or widening the window, with the matches untouched, keeps the invariant. */
  lemma SameMatchesKeepInv(cfg: Config, s: State, next: State)
    requires Inv(cfg, s)
    requires next.matches == s.matches && next.consumed == s.consumed
    requires next.lastMatchWhiteIdx == s.lastMatchWhiteIdx && next.lastMatchWhitePage == s.lastMatchWhitePage
    requires s.lastMatchWhiteIdx <= next.whiteIdx < |cfg.whiteFiles|
    ensures Inv(cfg, next)
  {
  }

  /** One iteration that does not abort keeps the invariant. */
  lemma NextPreservesInv(cfg: Config, s: State)
    requires Inv(cfg, s) && CanStep(cfg, s)
    ensures Next(cfg, s).Advanced? ==> Inv(cfg, Next(cfg, s).next)
  {
    var wi := Current(s);
    var o := Next(cfg, s);
    match PageOfPath(WhitePath(cfg, wi))
    case Failure(_) =>
      assert o.Failed?;
    case Success(page) =>
      if SkippedByDebugPage(cfg.debugPage, page) {
        assert o.next == s.(whiteIdx := wi);
        SameMatchesKeepInv(cfg, s, o.next);
      } else {
        var w := Window(cfg, s, wi, FirstStep(s));
        assert o == Settle(s, wi, page, w);
        match w
        case Exhausted =>
          SameMatchesKeepInv(cfg, s, o.next);
        case SeekBack(_, _) =>
          SameMatchesKeepInv(cfg, s, o.next);
        case OutOfRange(_, _) =>
        case Matched(step, b, bySimilarity) =>
          WindowOutcome(cfg, s, wi, FirstStep(s));
          MatchKeepsInv(cfg, s, page, step, b, bySimilarity);
      }
  }

  /** Appending a match of a white page that passed the debug filter keeps every match passing it. */
  lemma AllPassAppend(cfg: Config, matches: seq<Match>, m: Match)
    requires AllPassDebugFilter(cfg, matches) && PassesDebugFilter(cfg, m.white)
    ensures AllPassDebugFilter(cfg, matches + [m])
  {
    assert (matches + [m])[..|matches|] == matches;
  }

  /** Recording a match of white page wi, with the page number its file name gives, keeps the recorded pages right. */
  lemma RecordMatchKeepsPagesRecorded(cfg: Config, s: State, next: State, wi: nat, b: nat, page: int)
    requires PagesRecorded(cfg, s) && wi < |cfg.whiteFiles|
    requires PageOfPath(WhitePath(cfg, wi)) == Success(page) && !SkippedByDebugPage(cfg.debugPage, page)
    requires next.matches == s.matches + [Match(wi, b)]
    requires next.lastMatchWhiteIdx == wi && next.lastMatchWhitePage == page
    ensures PagesRecorded(cfg, next)
  {
    assert PassesDebugFilter(cfg, wi);
    AllPassAppend(cfg, s.matches, Match(wi, b));
  }

  /** Recording the match of a processed white page keeps the recorded pages right. */
  lemma MatchKeepsPagesRecorded(cfg: Config, s: State, page: int, step: int, b: nat, bySimilarity: bool)
    requires PagesRecorded(cfg, s) && CanStep(cfg, s) && Processed(cfg, s, page)
    ensures PagesRecorded(cfg, Settle(s, Current(s), page, Matched(step, b, bySimilarity)).next)
  {
    var wi := Current(s);
    var next := Settle(s, wi, page, Matched(step, b, bySimilarity)).next;
    assert next.matches == s.matches + [Match(wi, b)];
    assert next.lastMatchWhiteIdx == wi && next.lastMatchWhitePage == page;
    RecordMatchKeepsPagesRecorded(cfg, s, next, wi, b, page);
  }

  /** One iteration that does not abort keeps the recorded pages right. */
  lemma NextKeepsPagesRecorded(cfg: Config, s: State)
    requires PagesRecorded(cfg, s) && CanStep(cfg, s)
    ensures Next(cfg, s).Advanced? ==> PagesRecorded(cfg, Next(cfg, s).next)
  {
    var wi := Current(s);
    var o := Next(cfg, s);
    match PageOfPath(WhitePath(cfg, wi))
    case Failure(_) =>
    case Success(page) =>
      if SkippedByDebugPage(cfg.debugPage, page) {
        assert o.next == s.(whiteIdx := wi);
      } else {
        var w := Window(cfg, s, wi, FirstStep(s));
        assert o == Settle(s, wi, page, w);
        if w.Matched? {
          MatchKeepsPagesRecorded(cfg, s, page, w.step, w.black, w.bySimilarity);
        }
      }
  }

  /** How a bounded run of the outer loop ends. */
  datatype RunResult =
    | Finished(state: State)
    | OutOfFuel(state: State)
    | Aborted(state: State, error: AlignError)

  /** At most `fuel` iterations of the outer loop, starting from `s`: the loop condition. */
  function Run(cfg: Config, s: State, fuel: nat): (r: RunResult)
    ensures r.Finished? ==> !CanStep(cfg, r.state)
    decreases fuel, 2
  {
    if !CanStep(cfg, s) then Finished(s) else RunWithFuel(cfg, s, fuel)
  }

  /** The loop condition holds: stop if the fuel is used up. */
  function RunWithFuel(cfg: Config, s: State, fuel: nat): (r: RunResult)
    requires CanStep(cfg, s)
    ensures r.Finished? ==> !CanStep(cfg, r.state)
    decreases fuel, 1
  {
    if fuel == 0 then OutOfFuel(s) else RunIteration(cfg, s, fuel)
  }

  /** One iteration from `s`, then the rest of the run on one unit of fuel less. */
  function RunIteration(cfg: Config, s: State, fuel: nat): (r: RunResult)
    requires CanStep(cfg, s) && fuel > 0
    ensures r.Finished? ==> !CanStep(cfg, r.state)
    decreases fuel, 0
  {
    match Next(cfg, s)
    case Failed(e) => Aborted(s, e)
    case Advanced(next, _) => Run(cfg, next, fuel - 1)
  }

  /** A run that goes on does so from a state that satisfies the invariant. */
  lemma RunStepKeepsInv(cfg: Config, s: State, fuel: nat)
    requires Inv(cfg, s) && CanStep(cfg, s) && fuel > 0
    ensures Run(cfg, s, fuel).state == s ||
      exists next :: Inv(cfg, next) && Run(cfg, s, fuel) == Run(cfg, next, fuel - 1)
  {
    RunUnfold(cfg, s, fuel);
    if Next(cfg, s).Advanced? {
      NextPreservesInv(cfg, s);
      var next := Next(cfg, s).next;
      assert Inv(cfg, next) && Run(cfg, s, fuel) == Run(cfg, next, fuel - 1);
    }
  }

  /** Every state a run ends in satisfies the invariant. */
  lemma {:induction false} RunKeepsInv(cfg: Config, s: State, fuel: nat)
    requires Inv(cfg, s)
    ensures Inv(cfg, Run(cfg, s, fuel).state)
    decreases fuel
  {
    if CanStep(cfg, s) && fuel > 0 {
      RunStepKeepsInv(cfg, s, fuel);
      if Run(cfg, s, fuel).state != s {
        var next :| Inv(cfg, next) && Run(cfg, s, fuel) == Run(cfg, next, fuel - 1);
        RunKeepsInv(cfg, next, fuel - 1);
      }
    } else if !CanStep(cfg, s) {
      RunDone(cfg, s, fuel);
    } else {
      RunNoFuel(cfg, s);
    }
  }

  /** A run that goes on does so from a state whose recorded pages are right. */
  lemma RunStepKeepsPagesRecorded(cfg: Config, s: State, fuel: nat)
    requires PagesRecorded(cfg, s) && CanStep(cfg, s) && fuel > 0
    ensures Run(cfg, s, fuel).state == s ||
      exists next :: PagesRecorded(cfg, next) && Run(cfg, s, fuel) == Run(cfg, next, fuel - 1)
  {
    RunUnfold(cfg, s, fuel);
    if Next(cfg, s).Advanced? {
      NextKeepsPagesRecorded(cfg, s);
      var next := Next(cfg, s).next;
      assert PagesRecorded(cfg, next) && Run(cfg, s, fuel) == Run(cfg, next, fuel - 1);
    }
  }

  /** In every state a run ends in, the recorded pages are right. */
  lemma {:induction false} RunKeepsPagesRecorded(cfg: Config, s: State, fuel: nat)
    requires PagesRecorded(cfg, s)
    ensures PagesRecorded(cfg, Run(cfg, s, fuel).state)
    decreases fuel, 1
  {
    if CanStep(cfg, s) && fuel > 0 {
      RunOnKeepsPagesRecorded(cfg, s, fuel);
    } else if !CanStep(cfg, s) {
      RunDone(cfg, s, fuel);
    } else {
      RunNoFuel(cfg, s);
    }
  }

  /** The same for a run that still has an iteration to do. */
  lemma {:induction false} RunOnKeepsPagesRecorded(cfg: Config, s: State, fuel: nat)
    requires PagesRecorded(cfg, s) && CanStep(cfg, s) && fuel > 0
    ensures PagesRecorded(cfg, Run(cfg, s, fuel).state)
    decreases fuel, 0
  {
    RunStepKeepsPagesRecorded(cfg, s, fuel);
    if Run(cfg, s, fuel).state != s {
      var next :| PagesRecorded(cfg, next) && Run(cfg, s, fuel) == Run(cfg, next, fuel - 1);
      RunKeepsPagesRecorded(cfg, next, fuel - 1);
    }
  }

  /** A finished run has processed the last white page. */
  lemma RunFinishesAtLastPage(cfg: Config, s: State, fuel: nat)
    requires Inv(cfg, s)
    ensures Run(cfg, s, fuel).Finished? ==> Run(cfg, s, fuel).state.whiteIdx == |cfg.whiteFiles| - 1
  {
    RunKeepsInv(cfg, s, fuel);
  }

  /** A run that goes on does so from a state whose matches extend the current ones. */
  lemma RunStepExtendsMatches(cfg: Config, s: State, fuel: nat)
    requires CanStep(cfg, s) && fuel > 0
    ensures Run(cfg, s, fuel).state == s ||
      exists next: State :: s.matches <= next.matches && Run(cfg, s, fuel) == Run(cfg, next, fuel - 1)
  {
    RunUnfold(cfg, s, fuel);
    if Next(cfg, s).Advanced? {
      NextAppendsOnlyCurrentMatch(cfg, s);
      var next := Next(cfg, s).next;
      assert s.matches <= next.matches && Run(cfg, s, fuel) == Run(cfg, next, fuel - 1);
    }
  }

  /** The prefix order on matches is transitive. */
  lemma PrefixTransitive(a: seq<Match>, b: seq<Match>, c: seq<Match>)
    requires a <= b && b <= c
    ensures a <= c
  {
    assert c[..|a|] == b[..|a|];
  }

  /** A run only ever appends to the matches. */
  lemma {:induction false} RunExtendsMatches(cfg: Config, s: State, fuel: nat)
    ensures s.matches <= Run(cfg, s, fuel).state.matches
    decreases fuel
  {
    if CanStep(cfg, s) && fuel > 0 {
      RunStepExtendsMatches(cfg, s, fuel);
      if Run(cfg, s, fuel).state != s {
        var next: State :| s.matches <= next.matches && Run(cfg, s, fuel) == Run(cfg, next, fuel - 1);
        RunExtendsMatches(cfg, next, fuel - 1);
        PrefixTransitive(s.matches, next.matches, Run(cfg, next, fuel - 1).state.matches);
      }
    } else if !CanStep(cfg, s) {
      RunDone(cfg, s, fuel);
    } else {
      RunNoFuel(cfg, s);
    }
  }

  /** A run that has no iteration left to do finishes where it is. */
  lemma RunDone(cfg: Config, s: State, fuel: nat)
    requires !CanStep(cfg, s)
    ensures Run(cfg, s, fuel) == Finished(s)
  {
  }

  /** A run out of fuel stops where it is. */
  lemma RunNoFuel(cfg: Config, s: State)
    requires CanStep(cfg, s)
    ensures Run(cfg, s, 0) == OutOfFuel(s)
  {
  }

  /**
   * An iteration that does not raise hands the rest of the run to the state
   * it leaves: a run from s that has reached `before` with `f` fuel left
   * ends as the run from the next state with `f - 1`.
   */
  lemma RunAdvances(cfg: Config, before: State, f: nat, goal: RunResult, o: Outcome)
    requires Run(cfg, before, f) == goal
    requires CanStep(cfg, before) && f > 0
    requires o == Next(cfg, before) && o.Advanced?
    ensures Run(cfg, o.next, f - 1) == goal
  {
    RunUnfold(cfg, before, f);
  }

  /** A run goes on from the state the first iteration leaves, with one unit of fuel less. */
  lemma RunUnfold(cfg: Config, s: State, fuel: nat)
    requires CanStep(cfg, s) && fuel > 0
    ensures Next(cfg, s).Failed? ==> Run(cfg, s, fuel) == Aborted(s, Next(cfg, s).error)
    ensures Next(cfg, s).Advanced? ==> Run(cfg, s, fuel) == Run(cfg, Next(cfg, s).next, fuel - 1)
  {
    assert Run(cfg, s, fuel) == RunWithFuel(cfg, s, fuel) == RunIteration(cfg, s, fuel);
  }
}
