# Page aligner of kindle-ai-export, modelled in Dafny

`src/align-pages.py` pairs up two series of screenshots of the same book:
"white" captures (dark text on a light page) and "black" captures (the
inverted theme). The lists come from two directories. Both are sorted,
and the white list leaves out the files the script writes itself. The black
list, as written, does not (see "## Findings"); the model lists both
directories the way the white one is listed.

The script walks the white list with a cursor. For each white page it tries
the black pages `white_idx + search_offset + step`, with `step` running from
`-search_radius` to `+search_radius` and skipping black pages already
consumed. A pair is accepted in one of two ways:

- the images are similar;
- their diff image shows at most ten small rectangles.

A similarity match consumes the black page and re-centres the window on the
step. A rectangle match only shifts the offset. A rejected pair more than
five pages after the last match sends the cursor back to just after that
match and widens the window by one. After each match the script prints the
last ten matches, with the white and black pages skipped between
consecutive ones listed as "extra" pages.

The project models this in six modules:

- `Wrappers` (wrappers.dfy): `Option` and `Result`.
- `FileNames` (file_names.dfy):
  - `page_of_path` as `PageOfPath`, built from `Path(p).name` (`Name`),
    `split("-")[0]` (`FirstField`) and `int()` (`ParseInt`);
  - the filtered and sorted listing (`CaptureListing`) and the unfiltered
    black listing of the script as written (`BlackListing`), with
    `sorted()` as an insertion sort under Python's string order (`Below`).
- `Rectangles` (rectangles.dfy): the small-rectangle counter loop
  (`CountSmallRectangles`) and the verdict derived from it (`AcceptsPair`).
- `GapReport` (gap_report.dfy): the nested loops that print the report of
  the last ten matches (`ReportGaps`), specified by `Report`.
- `Alignment` (alignment.dfy): the loop of `main()` as a state machine over
  values.
  - `Window` is the inner `for` loop.
  - `Settle` is what its `break`s and the `if found_match:` block leave
    behind.
  - `Next` is one iteration of the outer `while` loop.
  - `Run` is the loop bounded by fuel.
  - `Inv` and `PagesRecorded` are the invariants kept by every iteration.
- `PageAligner` (aligner.dfy): class `Aligner`, whose fields are the loop
  variables of `main()`.
  - `SearchWindow` is the inner loop.
  - `Conclude` applies the state updates.
  - `Step` is one outer iteration.
  - `Align` is the outer loop.
  - Each of them is proved to compute exactly what the `Alignment`
    functions say.

The two image comparisons are oracles, indexed by (white index, black index):

- `similar` stands for "SSIM of the inverted white page and the black page
  is at least 0.9";
- `rectangles` stands for the bounding boxes that `find_white_rectangles`
  returns for the pair's diff image.

## Model

| member | source | states |
|---|---|---|
| FileNames.NameHasNoSlash | src/align-pages.py:68 | `Path(p).name` (`Name`) never contains a '/' |
| FileNames.NameScanHasNoSlash | src/align-pages.py:68 | the backward scan for the final component never yields a '/' when none was read into the current segment |
| FileNames.NameIsNotDropped | src/align-pages.py:68 | a nonempty `Path(p).name` is never "." (pathlib drops empty and "." segments) |
| FileNames.NameScanIsNotDropped | src/align-pages.py:68 | the backward scan never stops at an empty or "." segment |
| FileNames.NameScanToSegmentStart | src/align-pages.py:68 | reading back over characters other than '/' to the start of a segment does not change the final component |
| FileNames.NameOfJoinedPath | src/align-pages.py:129-131 | the name of `white_dir / white_file` is `white_file` for any plain file name, and so is the name of the file alone |
| FileNames.StripLeft | src/align-pages.py:68 | `int()` ignores leading whitespace: the result is no longer than the input and does not start with whitespace |
| FileNames.StripRight | src/align-pages.py:68 | `int()` ignores trailing whitespace: the result is no longer than the input and does not end with whitespace |
| FileNames.StripLeftDropsOnlySpace | src/align-pages.py:68 | `StripLeft` leaves a suffix of its input, and every character it removed is whitespace |
| FileNames.StripRightDropsOnlySpace | src/align-pages.py:68 | `StripRight` leaves a prefix of its input, and every character it removed is whitespace |
| FileNames.DigitsValueDefined | src/align-pages.py:68 | a digit string has a value exactly when every character is an ASCII digit |
| FileNames.Decimal | src/align-pages.py:68 | the decimal numeral of a page number is a nonempty string of digits |
| FileNames.DecimalRoundTrip | src/align-pages.py:68 | reading a page number's numeral back gives the page number |
| FileNames.ParseIntAccepts | src/align-pages.py:68 | `int()` (`ParseInt`) succeeds exactly when the stripped text, without one leading sign, is a nonempty run of digits |
| FileNames.ParseDigits | src/align-pages.py:68 | `int()` of a nonempty run of digits, zero-padded or not, is the value of the digits |
| FileNames.ParseDecimal | src/align-pages.py:68 | `int()` of a page number's numeral is that page number |
| FileNames.IndexOf | src/align-pages.py:68 | the first '-' of the name lies inside it, or the name has none |
| FileNames.IndexOfIsFirst | src/align-pages.py:68 | no '-' occurs before the one `split("-")[0]` stops at |
| FileNames.IndexOfAt | src/align-pages.py:68 | a '-' with no '-' before it is where `split("-")[0]` stops |
| FileNames.FirstFieldIsFirstPart | src/align-pages.py:68 | `split("-")[0]` (`FirstField`) is a prefix of the name without '-', followed by a '-' unless it is the whole name |
| FileNames.CaptureNameIsPlain | src/align-pages.py:68 | a name "<digits>-<rest>" is a plain file name whose first '-'-field is the digits |
| FileNames.PageOfPathRoundTrip | src/align-pages.py:66-68 | `page_of_path` (`PageOfPath`) of "<dir>/<digits><rest>" is the value of the digits, zero-padded or not, for any directory and any `rest` starting with '-' and free of '/' |
| FileNames.PageOfCapturePath | src/align-pages.py:66-68 | `page_of_path` of "<dir>/<numeral of page><rest>" is `page` |
| FileNames.PageOfPathRejects | src/align-pages.py:66-68 | a name whose part before the first '-' holds no digit (e.g. "cover.png", "-3.png") makes `page_of_path` raise |
| FileNames.ScriptOutputsAreTempFiles | src/align-pages.py:104-108 | `IsTempFile` holds for every name the script derives from a capture with `.inv.png`, `.mon.png`, `.diff.png`, `.crop.png` or `.leveled.png` |
| FileNames.DropTempFiles | src/align-pages.py:103-109 | no kept name ends in ".inv.png", ".mon.png", ".diff.png", ".crop.png" or ".leveled.png"; every other name is kept exactly as often as it occurs |
| FileNames.BelowTotal | src/align-pages.py:103 | any two strings are ordered one way or the other by Python's string order |
| FileNames.BelowTransitive | src/align-pages.py:103 | Python's string order is transitive |
| FileNames.BelowAntisymmetric | src/align-pages.py:103 | two strings each ordered before the other are equal |
| FileNames.BelowAllOfPermutation | src/align-pages.py:103 | a lower bound of every listed name bounds every name of a permutation of the list |
| FileNames.Insert | src/align-pages.py:103 | inserting into a sorted list gives a sorted list holding the same names plus the new one |
| FileNames.Sort | src/align-pages.py:103 | `sorted()` gives a sorted permutation of its input |
| FileNames.SortedPermutationUnique | src/align-pages.py:103 | two sorted permutations of one listing are equal, so `sorted()` has exactly one result |
| FileNames.CaptureListing | src/align-pages.py:103-109 | the white list is sorted, holds no temporary file, and holds every other listed name exactly as often as the directory does |
| FileNames.BlackListing | src/align-pages.py:110 | the black list as written is a sorted permutation of the whole directory listing |
| FileNames.LeveledCopiesAreBlackPages | src/align-pages.py:231-233 | a `.leveled.png` copy left in the black directory is a temporary file, yet it is in the black list as written, which keeps every listed name |
| FileNames.CaptureListingOfCleanDirectory | src/align-pages.py:103-110 | on a directory without temporary files the filtered listing equals the plain sorted one, so filtering the black directory changes nothing for a clean capture directory |
| Rectangles.SmallCount | src/align-pages.py:281-288 | the number of small rectangles is at most the number of rectangles |
| Rectangles.SmallCountIsNumberOfSmallPositions | src/align-pages.py:281-288 | the count equals the number of positions whose rectangle is narrower or lower than 30 |
| Rectangles.CountSmallRectangles | src/align-pages.py:281-288 | the counter loop counts exactly the rectangles with `w < 30` or `h < 30` |
| Rectangles.SmallCountAppend | src/align-pages.py:282-288 | the count of a concatenation is the sum of the counts |
| Rectangles.LargeRectanglesDoNotMatter | src/align-pages.py:285-302 | rectangles at least 30 wide and 30 high never change the verdict |
| Rectangles.MoreRectanglesNeverAccept | src/align-pages.py:302 | adding rectangles can turn an acceptance into a rejection, never the reverse |
| Rectangles.AllSmallCount | src/align-pages.py:285-287 | when every rectangle is small, all of them are counted |
| Rectangles.VerdictThreshold | src/align-pages.py:302-310 | the verdict `AcceptsPair`: at most ten rectangles always give an actual match; more than ten small ones give an actual mismatch |
| GapReport.LastTen | src/align-pages.py:335 | `matches[-10:]` is the suffix of the matches of length min(10, count) |
| GapReport.ExtraWhites | src/align-pages.py:337-340 | the extra white lines are exactly the indices strictly between two white indices, in increasing order |
| GapReport.ExtraBlacks | src/align-pages.py:341-344 | the extra black lines are exactly the indices strictly between two black indices, in increasing order |
| GapReport.Report | src/align-pages.py:335-350 | the report has one block per match of the tail |
| GapReport.ReportGaps | src/align-pages.py:334-350 | the nested loops print exactly `Report` of the tail: per match, the extra whites, then the extra blacks, then the pair |
| GapReport.ExtraWhiteReported | src/align-pages.py:337-340 | white index i is listed as extra in match k's block iff it lies strictly between the white indices of matches k-1 and k; the first match of the tail lists none |
| GapReport.ExtraBlackReported | src/align-pages.py:341-344 | black index i is listed as extra in match k's block iff it lies strictly between the black indices of matches k-1 and k; the first match of the tail lists none |
| GapReport.BlockEndsWithItsMatch | src/align-pages.py:345-347 | each block ends with its own matched pair, and that is the block's only pair line |
| Alignment.Window | src/align-pages.py:156-165 | the inner loop ends at a step inside the window, at or after the step it starts from |
| Alignment.WindowOutcome | src/align-pages.py:158-325 | the black index tried is `white_idx + search_offset + step` and never a consumed one; every step before the one the loop ends at was consumed or rejected close to the last match; a match is an in-range accepted pair and a similarity match exactly when the pair is similar; a seek-back is a rejected in-range pair more than five pages after the last match; an out-of-range index is the only error |
| Alignment.WindowSkipsPassed | src/align-pages.py:158-165 | steps tried in increasing order that are all passed do not change how the loop ends |
| Alignment.WindowIgnoresCursor | src/align-pages.py:160 | the inner loop does not read the cursor variable |
| Alignment.SettleOutcomes | src/align-pages.py:206-332 | `Settle`, what the loop's `break`s and the `if found_match:` block leave behind: the iteration raises exactly when the inner loop stopped at an out-of-range black index; it prints a report exactly when it appends the match of the current page; otherwise matches and consumed indices stay as they were |
| Alignment.SettleIgnoresCursor | src/align-pages.py:206-332 | what the iteration leaves behind does not depend on the cursor variable's value before it |
| Alignment.NextSettles | src/align-pages.py:127-332 | an iteration on a page that parses and passes the debug filter is settled by how its inner loop ends |
| Alignment.NextSettlesAtCursor | src/align-pages.py:127-332 | the same, from the state in which the cursor has already been incremented |
| Alignment.NextAppendsOnlyCurrentMatch | src/align-pages.py:330-333 | an iteration appends at most one match, whose white index is the page it processed, and prints the last-ten report exactly when it appends one |
| Alignment.BadFileNameAborts | src/align-pages.py:129-131 | a white file name without a leading integer stops the script with that white index |
| Alignment.DebugPageSkips | src/align-pages.py:133-137 | a page below the debug page (`SkippedByDebugPage`) only moves the cursor |
| Alignment.NoDebugPageSkipsNothing | src/align-pages.py:134-136 | a debug page of `None` or 0 is falsy and skips no page |
| Alignment.ScriptDebugPageSkipsEarlyPages | src/align-pages.py:135-137 | with the script's `debug_page = 61`, a page below 61 only moves the cursor, and a page is processed exactly when it is 61 or later |
| Alignment.SimilarityMatch | src/align-pages.py:206-222 | a similar pair consumes the black index, moves the last match to this white page and page number, and appends the match; for a nonzero step the offset moves by the step and the radius resets to 0, for step 0 both stay |
| Alignment.RectangleMatch | src/align-pages.py:302-308 | a dissimilar pair with at most ten small rectangles moves the offset by the step and the last match to this page and appends the match; the consumed set and the radius are unchanged |
| Alignment.SeekBackOnRejectedPair | src/align-pages.py:312-325 | a rejected pair more than five pages after the last match sets the cursor to the last match, so the next page processed is the one after it, and widens the radius by exactly 1; nothing else changes |
| Alignment.BlackIndexOutOfRangeAborts | src/align-pages.py:171 | an unconsumed black index outside the black list stops the script |
| Alignment.WindowExhausted | src/align-pages.py:327-330 | when every step is passed, the page stays unmatched and only the cursor moves |
| Alignment.InitInv | src/align-pages.py:112-121 | both invariants hold for the loop variables' initial values (`Init`) |
| Alignment.ConsumedInRange | src/align-pages.py:162-171 | every consumed black index is a valid index into the black list |
| Alignment.MatchesUpToLast | src/align-pages.py:332 | with increasing white indices, the last match has the largest one |
| Alignment.IncreasingAppend | src/align-pages.py:332 | appending a match after every earlier white index keeps the white indices strictly increasing |
| Alignment.MatchedBlackAppend | src/align-pages.py:332 | appending a match keeps every matched black index matched |
| Alignment.RecordMatchKeepsInv | src/align-pages.py:330-332 | recording a match of a page after the cursor keeps the invariant |
| Alignment.MatchKeepsInv | src/align-pages.py:206-222 | appending the match of the page being processed, with or without consuming its black page, keeps the invariant |
| Alignment.SameMatchesKeepInv | src/align-pages.py:322 | moving the cursor to or after the last match without touching the matches keeps the invariant |
| Alignment.NextPreservesInv | src/align-pages.py:125-353 | every iteration (`Next`) that does not raise keeps the invariant: the cursor stays at or after the last match and inside the white list; the last match is the last matched white index; matched white indices strictly increase; matched black indices are in range; every consumed black index was matched |
| Alignment.AllPassAppend | src/align-pages.py:136-137 | appending a match of a page the debug filter lets through keeps every matched page one that passed the filter |
| Alignment.RecordMatchKeepsPagesRecorded | src/align-pages.py:210-211 | recording a match of a white page together with the page number its file name gives keeps the recorded pages right |
| Alignment.MatchKeepsPagesRecorded | src/align-pages.py:206-222 | the match `Settle` records for a processed page keeps the recorded pages right |
| Alignment.NextKeepsPagesRecorded | src/align-pages.py:210-211 | every iteration that does not raise keeps `last_match_white_page` equal to the page number of the last matched white file, and every matched white page passed the debug filter |
| Alignment.Run | src/align-pages.py:125 | the loop finishes only when the cursor has reached the last white index |
| Alignment.RunWithFuel | src/align-pages.py:125 | a run started while the loop condition holds finishes only in a state where it no longer holds |
| Alignment.RunIteration | src/align-pages.py:125-127 | a run that finishes after an iteration ends with the loop condition false |
| Alignment.RunStepKeepsInv | src/align-pages.py:125-353 | a run that goes on does so from a state that satisfies the invariant |
| Alignment.RunKeepsInv | src/align-pages.py:125-353 | every state a run ends in satisfies the invariant |
| Alignment.RunStepKeepsPagesRecorded | src/align-pages.py:210-211 | a run that goes on does so from a state whose recorded pages are right |
| Alignment.RunKeepsPagesRecorded | src/align-pages.py:304-305 | in every state a run ends in, the last match's page is the one its file name gives |
| Alignment.RunOnKeepsPagesRecorded | src/align-pages.py:125-353 | a run that still has an iteration to do ends in a state whose recorded pages are right |
| Alignment.RunFinishesAtLastPage | src/align-pages.py:122-125 | a finished run has processed the last white index |
| Alignment.RunStepExtendsMatches | src/align-pages.py:332 | a run that goes on does so from a state whose matches extend the current ones |
| Alignment.PrefixTransitive | src/align-pages.py:332 | extending a list of matches twice extends it |
| Alignment.RunExtendsMatches | src/align-pages.py:332 | the loop only ever appends to `matches` |
| Alignment.RunDone | src/align-pages.py:125 | a run whose loop condition is false finishes where it is |
| Alignment.RunNoFuel | src/align-pages.py:125 | a run with no fuel stops where it is |
| Alignment.RunUnfold | src/align-pages.py:125-127 | a run with fuel either raises in its first iteration or goes on from the state that iteration leaves |
| Alignment.RunAdvances | src/align-pages.py:125-127 | after an iteration that does not raise, the rest of the loop from the state it leaves, with one iteration less, ends as the whole run does |
| PageAligner.Aligner.constructor | src/align-pages.py:103-121 | both listings are filtered and sorted as the script does for the white one (for the black one see "## Findings"); the loop variables take their initial values; the invariant holds |
| PageAligner.Aligner.SearchWindow | src/align-pages.py:156-325 | the inner `for` loop with its `continue`s and `break`s ends exactly as `Window` says |
| PageAligner.Aligner.Conclude | src/align-pages.py:206-332 | the field updates done on breaking out of the inner loop, and the appending and report after it, give exactly the state `Settle` describes |
| PageAligner.Aligner.ProcessPage | src/align-pages.py:154-332 | the inner loop and what follows it give exactly what `Settle` of `Window` describes |
| PageAligner.Aligner.Step | src/align-pages.py:125-353 | one outer iteration computes exactly `Next` of the old loop variables and keeps the invariant |
| PageAligner.Aligner.Align | src/align-pages.py:125-353 | the outer `while` loop, run for at most `fuel` iterations, computes exactly `Run`, and its fields end in the state `Run` reports |

## Left out

- Image processing is not modelled; the two oracles stand in for it. This covers reading and writing images, removing the alpha channel, inverting colours, resizing and greyscale conversion, SSIM (`get_similarity`), contour and polygon detection (`find_white_rectangles`), and the colour-level scaling. It is floating-point numerics inside external libraries.
- The `magick compare`/`montage` subprocesses and every debug image write are left out (the `.inv.png`, `.leveled.png`, `.diff.png` and `.crop.png` files). The crop loop's `CROP_BORDER` adjustment feeds only the crop writes, and with the border constants at 0 it never applies.
- The diff image is not only a debug output: `magick compare` writes it (src/align-pages.py:252-269) and `find_white_rectangles` reads it back (line 278). Its path depends on the white page alone, and the exit status of `magick` is ignored. So a failed compare leaves either no diff, and `cv2` then raises, or a stale diff of another black page. The `rectangles` oracle assumes a fresh diff of the pair being compared.
- The `.leveled.png` copies written into the black directory, for each black page that fails the similarity test (src/align-pages.py:222-233), are not modelled as a write. Their effect on a later run is: `FileNames.LeveledCopiesAreBlackPages` shows that the black listing as written takes them in (see "## Findings").
- The `ASIN` environment lookup, `os.listdir` and every `print` are left out. The directory listings are parameters of the constructor. The printed report is modelled as a value: per match, the extra white and black indices and the pair. The paths printed next to them are not.
- The asyncio entry point is not modelled.
- Alignment.ScriptDebugPage: the script hard-codes `debug_page = 61`. The model takes the debug page as a parameter `debugPage`, which keeps Python's truthiness (`None` and 0 switch the filter off). `ScriptDebugPage` is the script's own value, and `Alignment.ScriptDebugPageSkipsEarlyPages` states what it does.
- Alignment.BlackIndexOutOfRangeAborts: Python reads `black_files[black_idx]` from the end of the list when `black_idx` is negative. The model treats every index outside `0 <= black_idx < len(black_files)` as an error that stops the script, as it does for a too-large index.
- FileNames.ParseInt: `int()` also accepts underscores between digits, non-ASCII decimal digits and non-ASCII whitespace. The model accepts only ASCII digits and ASCII whitespace (space, tab, line feed, vertical tab, form feed, carriage return and the separators U+001C to U+001F), with an optional sign.
- FileNames.Below: it is Python's order on code points. No locale or Unicode normalisation is involved.
- Alignment.Run: the source gives no bound on the number of iterations. A seek-back together with a radius that keeps growing may revisit pages. So the loop runs on explicit fuel, and termination is not claimed.
- PageAligner.Aligner.Align: when an iteration raises, the object's fields are left as they are. Only the state before that iteration and the error are reported, because Python abandons `main()` there.
- PageAligner.Aligner.constructor: the black list is `CaptureListing` of the directory, the corrected listing from "## Findings", not line 110's `BlackListing` as written. The two differ exactly when the black directory holds files the script writes itself, such as `.leveled.png` copies left by an earlier run: as written they become black pages (`FileNames.LeveledCopiesAreBlackPages`) and shift every later black index, while the object leaves them out. On a directory without such files the two lists are equal (`FileNames.CaptureListingOfCleanDirectory`).
- PageAligner.Aligner.SearchWindow: in the source, the inner loop updates the loop variables itself before each `break`. The model returns how the loop ended and applies those updates in `Conclude` right after it. The order of the updates and their effect on the variables are the same, because nothing in between reads them.
- The invariant `PagesRecorded` is proved about the state machine (`Alignment.RunKeepsPagesRecorded`) and not carried in `Aligner.Valid`. `Align` computes exactly `Run`, so it holds for the object's fields too.

## Findings

| source | as written | input that shows it | evidently intended | confidence | as-written member | corrected member |
|---|---|---|---|---|---|---|
| src/align-pages.py:110 | the leveled copy of each black page compared without a similarity match (the `break` at line 222 skips it after a match) is written into the black directory (lines 231-233), and line 110 lists that directory unfiltered | a black directory holding "0061-a.png" and, left by an earlier run, "0061-a.leveled.png": the copy sorts before the capture and becomes a black page, shifting every later black index; the cleanup hint at line 356 does not remove `.leveled.png` files | the black listing leaves out the script's own temporary files, as the white listing does | not executed | FileNames.LeveledCopiesAreBlackPages | FileNames.CaptureListing |
