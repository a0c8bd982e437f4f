# kaiserlift: personal records, next targets and running helpers in Dafny

This project models the computational core of kaiserlift, a workout-log
analyser. A lifting log is a frame of rows with Exercise, Weight and Reps
columns. The core does three things with it:

- **One-rep max (Epley).** `calculate_1rm` turns a set of `w` lifted `r`
  times into the estimate `w * (1 + r / 30)`. `estimate_weight_from_1rm`
  is its inverse. `add_1rm_column` adds the estimate as a `1RM` column,
  row by row. This is module `Epley` (epley.dfy).
- **Personal records.** `highest_weight_per_rep` cleans the log: Weight
  and Reps are coerced to numbers, unusable rows are dropped and Reps are
  truncated to integers. It keeps the heaviest set of every
  (Exercise, Reps) pair, taking the earliest on ties. Then it drops every
  kept set that another kept set of the same exercise supersedes, that is,
  one with strictly more reps and at least the weight. This is module
  `Pareto` (pareto.dfy). The method `Pareto.HighestWeightPerRep` is proved
  against the relational specification `IsHighestWeightPerRep`. The
  properties of the records are lemmas about that specification.
- **Next targets.** `dougs_next_pareto` suggests, for each exercise in
  order of first appearance, the sets to try next:
  - one rep at the lowest-rep record's weight plus 5 (the heaviest one
    when the records form a frontier);
  - one set in every gap between neighbouring rep counts, one rep above
    the lower record, at the lighter of its weight and the upper record's
    weight plus 5;
  - one rep more than the highest rep count, at that record's weight.

  The result goes through `add_1rm_column`. This is module `Targets`
  (targets.dfy). The method `Targets.DougsNextPareto` is proved against
  the function `Targets.NextTargets`.

Three helpers from the plotting side are modelled as well:

- `slugify`, which turns an exercise name into an HTML id: module `Slug`
  (slug.dfy).
- The running helpers `_format_duration_minutes` and `_pace_axis_ticks`,
  and the Duration and Speed columns derived from Pace: module `Running`
  (running.dfy).

Shared pieces:

- `Numeric` (numeric.dfy) holds floats as `NaN | Fin(real)`, truncation
  toward zero and Python's round-half-to-even.
- `Frames` (frames.dfy) holds cells, rows and `to_numeric`.
- `Order` (order.dfy) holds Python's string ordering, which `groupby`
  uses to sort its keys.

Weights and one-rep maxima are exact reals, so the conversions invert each
other exactly. Reps are integers after cleaning.

The source's in-file checks compare frames as multisets of rows: its own
`assert_frame_equal` sorts the rows first. The oracle lemmas here state
the exact row order the model produces, which is stronger. They are stated
for every exercise name, not only for "Bench Press".

`add_1rm_column` writes a `1RM` column, and `dougs_next_pareto` returns
its targets with that column.

## Model

| member | source | states |
|---|---|---|
| Numeric.Trunc | kaiserlift/main.py:67 | `astype(int)` truncates toward zero: the result is the integer within one of `x` on the side of zero |
| Numeric.RoundHalfEven | kaiserlift/running_viewers.py:34 | Python's `round`: the nearest integer, an exact half going to the even neighbour |
| Numeric.Min | kaiserlift/main.py:269 | `min` of two candidate weights is one of them and no larger than either |
| Frames.ToNumeric | kaiserlift/main.py:59-61 | `to_numeric(errors='coerce')` keeps numbers and turns every other cell into a missing value |
| Order.LexTotal | kaiserlift/main.py:101 | any two distinct exercise names are ordered one way or the other, so `groupby` has a key order |
| Order.LexTransitive | kaiserlift/main.py:101 | the string order `groupby` sorts by is transitive |
| Order.LexAsymmetric | kaiserlift/main.py:101 | no two names precede each other |
| Epley.Calculate1Rm | kaiserlift/main.py:154-172 | NaN exactly for a NaN argument, reps <= 0 or a negative weight; weight 0 gives 0; one rep gives the weight; at one rep or more the estimate is at least the weight |
| Epley.EstimateWeightFrom1Rm | kaiserlift/main.py:177-191 | NaN exactly for a NaN argument, reps <= 0 or a negative one-rep max; one rep gives the one-rep max; at one rep or more the weight is at most the one-rep max |
| Epley.CalculateInvertsEstimate | kaiserlift/main.py:154-191 | converting a valid one-rep max to a working weight and back returns the one-rep max exactly |
| Epley.EstimateInvertsCalculate | kaiserlift/main.py:154-191 | converting a valid weight to its one-rep max and back returns the weight exactly |
| Epley.Calculate1RmMonotone | kaiserlift/main.py:166-170 | for one rep or more, the estimate grows with the weight and with the reps |
| Epley.ConversionExamples | kaiserlift/main.py:174-195 | the five in-file checks: 100x1 -> 100, 1x15 -> 1.5, 200 at 1 rep -> 200, 200 at 4 reps -> 3000/17, and back to 200 |
| Epley.WithOneRm | kaiserlift/main.py:198-223 | one row of the result: Weight and Reps coerced, the other columns kept, `1RM` is the estimate of the coerced values |
| Epley.AddOneRmColumn | kaiserlift/main.py:215-218 | the loop over rows gives a frame of the same length whose i-th row is the i-th input row with its `1RM` |
| Epley.AddOneRmExamples | kaiserlift/main.py:225-249 | the in-file checks: 100x1 -> 100, 100x30 -> 200, 1x15 -> 1.5, 13x1 -> 13 |
| Pareto.Clean | kaiserlift/main.py:59-67 | a row survives cleaning exactly when its Exercise is present and its Weight and Reps are numbers; the set then keeps the Exercise, the Weight and the other columns, with Reps truncated toward zero |
| Pareto.CleanRows | kaiserlift/main.py:59-67 | the cleaned frame is as long as the log exactly when every row is usable |
| Pareto.CleanRowsInLogOrder | kaiserlift/main.py:59-64 | a usable row's cleaned form sits in the cleaned frame at its position among the usable rows, and a later row sits later, so cleaning keeps log order |
| Pareto.CleanRowsOrigin | kaiserlift/main.py:59-64 | every position of the cleaned frame comes from a usable row of the log |
| Pareto.CleanRowsMembers | kaiserlift/main.py:59-64 | the cleaned frame holds exactly the cleaned forms of the usable rows |
| Pareto.HeaviestPerKey | kaiserlift/main.py:80 | the `idxmax` step lists, in key order and once each, the heaviest set of every (Exercise, Reps) pair, the earliest on ties |
| Pareto.HeaviestOfKeyUnique | kaiserlift/main.py:80 | each (Exercise, Reps) pair has exactly one heaviest set in the `idxmax` sense |
| Pareto.SupersededAmongBest | kaiserlift/main.py:88-104 | checking supersession among the heaviest sets only is the same as checking it against every heaviest set of the log |
| Pareto.HighestWeightPerRep | kaiserlift/main.py:50-110 | the result is sorted by (Exercise, Reps) and holds exactly the heaviest, unsuperseded sets of the cleaned log |
| Pareto.HighestWeightPerRepUnique | kaiserlift/main.py:50-110 | the specification fixes the result: two results for one log are equal |
| Pareto.RecordsFormFrontier | kaiserlift/main.py:83-105 | among one exercise's records, more reps means strictly less weight |
| Pareto.EveryLiftCovered | kaiserlift/main.py:83-105 | every usable set is matched or beaten by some record of its exercise, with at least its reps and at least its weight |
| Pareto.RecordsComeFromLog | kaiserlift/main.py:57-81 | every record is the cleaned form of some row of the input |
| Pareto.RecordIsHeaviestOfItsKey | kaiserlift/main.py:76-81 | a record is the heaviest set of its (Exercise, Reps) pair and the first of those equally heavy |
| Pareto.RecordIsFirstHeaviestInLog | kaiserlift/main.py:59-81 | a record is the cleaned form of a row of the log that is at least as heavy as every usable row of its (Exercise, Reps) pair and strictly heavier than every earlier one |
| Pareto.Supersedes | kaiserlift/main.py:88-96 | a set never supersedes itself |
| Pareto.SupersedesStrictOrder | kaiserlift/main.py:88-96 | supersession is never mutual and is transitive |
| Pareto.IsHighestWeightPerRep | kaiserlift/main.py:50-110 | every record is a cleaned set, and an empty cleaned log gives no records |
| Pareto.OneRecordPerKey | kaiserlift/main.py:80-81 | no two records share an (Exercise, Reps) pair |
| Pareto.DroppedSupersededByRecord | kaiserlift/main.py:88-105 | a heaviest set that is not a record is superseded by one of the records |
| Pareto.RecordsAreTheirOwnRecords | kaiserlift/main.py:50-110 | the records of a log are also the records of themselves |
| Pareto.HighestWeightPerRepIdempotent | kaiserlift/main.py:50-110 | applying `highest_weight_per_rep` to its own result returns that result |
| Pareto.SingleSetExample | kaiserlift/main.py:112-124 | the in-file check: 100x1 alone is its own record |
| Pareto.SupersededSetExample | kaiserlift/main.py:126-138 | the in-file check: 90x5 is dropped for 100x10 |
| Pareto.FrontierExample | kaiserlift/main.py:140-152 | the in-file check: of 100x10, 90x15, 100x5, 95x3 and 110x1, exactly 110x1, 100x10 and 90x15 remain, in rep order |
| Targets.Unique | kaiserlift/main.py:254 | `unique` lists every exercise of the log once and nothing else |
| Targets.RecordsOf | kaiserlift/main.py:255 | the rows of one exercise are exactly the records with that name |
| Targets.SortByReps | kaiserlift/main.py:255 | `sort_values('Reps')` gives a rep-ascending permutation of the rows |
| Targets.SortByRepsOfSorted | kaiserlift/main.py:255 | rows already in rep order are left as they are (the sort is stable) |
| Targets.AppendExerciseTargets | kaiserlift/main.py:256-272 | the loop body for one exercise appends exactly that exercise's suggestions: first, gaps, last |
| Targets.DougsNextPareto | kaiserlift/main.py:252-274 | the result has one row per suggestion of `NextTargets`, in order, each with its `1RM` column |
| Targets.GapTargetsMembers | kaiserlift/main.py:262-269 | a gap suggestion exists exactly for neighbours more than one rep apart, and it is that gap's target |
| Targets.GapIndices | kaiserlift/main.py:263-264 | the gap positions are exactly the neighbour pairs more than one rep apart, in ascending order |
| Targets.FirstTarget | kaiserlift/main.py:259-260 | the first-rep suggestion is one rep of the exercise, heavier than the lowest-rep record, and heavier than every record when the records form a frontier |
| Targets.GapTarget | kaiserlift/main.py:262-269 | a gap suggestion has one rep more than the lower record, at the lower weight or the upper weight plus 5, whichever is less, and its reps lie strictly inside the gap |
| Targets.GapTargets | kaiserlift/main.py:262-269 | the k-th gap suggestion is the target of the k-th gap, one suggestion per gap |
| Targets.LastTarget | kaiserlift/main.py:270-272 | the high-rep suggestion keeps the highest-rep record's weight with more reps, and more reps than every record when the records form a frontier |
| Targets.ExerciseTargets | kaiserlift/main.py:259-272 | an exercise gets two suggestions plus one per gap, all of that exercise |
| Targets.NextTargets | kaiserlift/main.py:252-274 | the suggestions are exactly those made, exercise by exercise, from each exercise's rows sorted by reps: every suggestion comes from an exercise of the log, and every exercise contributes all of its own |
| Targets.NextTargetsCount | kaiserlift/main.py:254-272 | every exercise of the log gets its two suggestions plus one per gap, so there are at least two per exercise |
| Targets.TargetsForCount | kaiserlift/main.py:254-272 | the loop over exercises emits, for each one, two suggestions plus one per gap |
| Targets.ExerciseTargetsCases | kaiserlift/main.py:259-272 | every suggestion is the first-rep one, a gap one or the high-rep one |
| Targets.ExerciseTargetsNear | kaiserlift/main.py:259-272 | every suggestion is the 1-rep step above the lowest-rep record's weight plus 5 (the heaviest one when the records form a frontier), or one rep above a record at no more than its weight |
| Targets.GapTargetIsNew | kaiserlift/main.py:262-269 | on a strict frontier, a gap suggestion is heavier than every record with at least its reps |
| Targets.ExerciseTargetsAreNew | kaiserlift/main.py:259-272 | no suggestion is already matched by a frontier record with at least its reps |
| Targets.ExerciseTargetsAscend | kaiserlift/main.py:259-272 | on a frontier whose reps start at 1 or more, one exercise's suggestions have strictly increasing reps |
| Targets.TargetsForMembers | kaiserlift/main.py:254-272 | a suggestion is emitted by the loop over exercises exactly when it is one of the suggestions of an exercise the loop visits |
| Targets.RecordsOfFrontier | kaiserlift/main.py:255 | on the output of `highest_weight_per_rep`, one exercise's rows are already in rep order and form a strict frontier |
| Targets.RecordsTradeOff | kaiserlift/main.py:83-105 | two records of one exercise trade reps for weight |
| Targets.NextTargetsAreNew | kaiserlift/main.py:252-274 | a suggestion made from the records of a log beats every logged set of its exercise with at least its reps |
| Targets.RecordsOfAppend | kaiserlift/main.py:255 | filtering by exercise distributes over concatenation of logs |
| Targets.NextTargetsOneExercise | kaiserlift/main.py:252-274 | for one exercise with rows in rep order, the suggestions are those of that exercise |
| Targets.NextTargetsTwoExercises | kaiserlift/main.py:252-274 | for two exercises one after the other, the suggestions are those of the first followed by those of the second |
| Targets.SingleRecordExample | kaiserlift/main.py:277-289 | the in-file check: 100x1 gives 105x1 and 100x2 |
| Targets.FirstRecordAboveOneExample | kaiserlift/main.py:291-302 | the in-file check: 100x5 gives 105x1 and 100x6 |
| Targets.TwoExercisesExample | kaiserlift/main.py:304-316 | the in-file check with two exercises: 105x1 and 100x6, then 85x1, 55x2 and 50x11 |
| Targets.FrontierGapsExample | kaiserlift/main.py:318-333 | the in-file check: 100x2, 80x5, 75x6 and 50x10 give 105x1, 85x3, 55x7 and 50x11 |
| Slug.ReplaceNonWordRuns | kaiserlift/plot_utils.py:19 | `re.sub(r"[^\w]+", "_")` leaves only word characters and starts with `_` exactly when the name does or starts with a non-word character |
| Slug.CollapseUnderscores | kaiserlift/plot_utils.py:20 | `re.sub(r"_+", "_")` leaves no two adjacent underscores and keeps the characters word characters |
| Slug.DropTrailingUnderscores | kaiserlift/plot_utils.py:20 | the right half of `strip("_")`: a prefix whose dropped tail is all underscores |
| Slug.Lower | kaiserlift/plot_utils.py:21 | `lower()` maps each character to its lower-case form, keeping length |
| Slug.LeadingUnderscores | kaiserlift/plot_utils.py:20 | the number of underscores a text starts with: every character before that point is one and the next is not |
| Slug.StripUnderscores | kaiserlift/plot_utils.py:20 | `strip("_")` leaves the characters that follow the leading underscores, followed in the text only by underscores, with no underscore at either end |
| Slug.Slugify | kaiserlift/plot_utils.py:6-21 | a slug is lower-case letters, digits and single underscores, never at either end |
| Slug.SlugifyKeepsAlnums | kaiserlift/plot_utils.py:6-21 | deleting the underscores from a slug gives exactly the name's letters and digits, lower-cased and in order |
| Slug.SlugifyWithoutAlnums | kaiserlift/plot_utils.py:19-20 | a name without letters or digits has the empty slug |
| Slug.SlugEmptyIffNoAlnums | kaiserlift/plot_utils.py:6-21 | a slug is empty exactly when it has no letters or digits |
| Slug.SlugIsFixedPoint | kaiserlift/plot_utils.py:6-21 | a slug is its own slug |
| Slug.SlugifyIdempotent | kaiserlift/plot_utils.py:6-21 | slugifying twice is slugifying once |
| Running.ClockParts | kaiserlift/running_viewers.py:35-37 | the hours, minutes and seconds add back up to the total, with minutes and seconds below 60 |
| Running.Pad2 | kaiserlift/running_viewers.py:39-40 | `:02d` writes a number below 100 as two digits with that value |
| Running.FormatClockFields | kaiserlift/running_viewers.py:38-40 | the text is H:MM:SS when there is at least an hour and M:SS otherwise |
| Running.FormatClock | kaiserlift/running_viewers.py:34-40 | reading the formatted text back gives the number of seconds |
| Running.FormatClockInjective | kaiserlift/running_viewers.py:34-40 | different numbers of seconds give different texts |
| Running.FormatDurationMinutes | kaiserlift/running_viewers.py:30-40 | "N/A" exactly for NaN or a non-positive duration; otherwise the text reads back as the duration in seconds, rounded half to even |
| Running.FormatDurationExamples | kaiserlift/running_viewers.py:38-40 | 59 seconds is "0:59" and 3725 seconds is "1:02:05" |
| Running.TickInterval | kaiserlift/running_viewers.py:371-379 | the spacing is 15, 30, 60 or 120; a range up to 600 gets at most ten steps, and a coarser spacing than 15 is only picked when the range exceeds four of it |
| Running.TickIntervalMonotone | kaiserlift/running_viewers.py:371-379 | a wider range never gets a finer spacing |
| Running.PyRange | kaiserlift/running_viewers.py:382-383 | `range(start, stop, step)` is the ascending arithmetic sequence below the stop |
| Running.PyRangeComplete | kaiserlift/running_viewers.py:382-383 | every step below the stop is in the range |
| Running.InWindow | kaiserlift/running_viewers.py:382-384 | the comprehension keeps exactly the candidates inside the window, in their order |
| Running.TickStart | kaiserlift/running_viewers.py:380 | the first candidate lies at or below the low end, less than one spacing below it |
| Running.TickStop | kaiserlift/running_viewers.py:381 | the stop lies strictly above the high end, at most one spacing above it |
| Running.TickCandidates | kaiserlift/running_viewers.py:380-383 | the candidates ascend and are multiples of the spacing between start and stop |
| Running.CandidatesComplete | kaiserlift/running_viewers.py:380-383 | every multiple of the spacing between start and stop is a candidate |
| Running.PaceAxisTicks | kaiserlift/running_viewers.py:369-386 | the ticks ascend, are exactly the multiples of the spacing in range and inside 95%-105% of the axis, and each label is the pace text of its tick |
| Running.SpeedFromPace | kaiserlift/running_viewers.py:84-86 | speed is defined exactly for a positive pace, and speed times pace is 3600 seconds |
| Running.DurationFromPace | kaiserlift/running_viewers.py:77-78 | the Duration from Pace is a number exactly when pace and distance are, and then 60 times it is pace times distance |
| Running.DurationFromSpeed | kaiserlift/running_viewers.py:80-82 | the duration from Speed is defined exactly when distance and speed are numbers and the speed is not zero, and then duration times speed is 60 times the distance |
| Running.WithDerivedColumns | kaiserlift/running_viewers.py:76-86 | a missing Duration comes from Pace when Pace is there, otherwise from Speed; a missing Speed comes from Pace; columns already present are kept |
| Running.DurationFormulasAgree | kaiserlift/running_viewers.py:76-86 | for a positive pace, the Duration from Pace equals the Duration from the Speed that pace gives |
| Running.DerivedColumnsConsistent | kaiserlift/running_viewers.py:76-86 | a row with a pace and a row with the matching speed get the same Duration and Speed |

## Left out

- Reading the log (CSV files, Google Drive paths), plotting, HTML output and the command-line entry points are I/O and are not modelled.
- Floating point is modelled as exact reals. `Epley.ConversionExamples` therefore states 200 at 4 reps as 3000/17 exactly, where the source compares with the nearest double. The round trip is exact here. The model does not say whether it holds in doubles.
- `Frames.ToNumeric`: a text cell is taken to be non-numeric. Numeric strings, which `to_numeric` would parse, are assumed to be numbers already.
- `Running.DurationFromSpeed`: a zero speed gives NaN. pandas gives an infinity there, or NaN for 0/0.
- `Running.PaceAxisTicks`: `seconds_to_pace_string` lives in another module and is not part of this model. It is a parameter, and only its use per tick is stated.
- `Targets.SortByReps`: `sort_values('Reps')` uses pandas' default, unstable quicksort. The model sorts stably, so rows with equal reps keep their log order. On the output of `highest_weight_per_rep`, reps are distinct within an exercise, and the order does not matter there.
- `Slug.Slugify`: the character classes are ASCII-only. `ReplaceNonWordRuns` treats non-ASCII letters and digits as non-word characters, and `Lower` does not case-fold them. Python's Unicode `\w` and `str.lower` give "café" for "Café"; the model gives "caf".
- `Targets.Unique`: the contract states membership and distinctness. The first-appearance order is proved only for the one- and two-exercise cases the oracles use.
- `Epley.Calculate1Rm`: a missing argument (`None`) is modelled as NaN. For a zero weight with `None` reps, the source raises a TypeError instead, because its zero branch then compares `None > 0`. That error is not modelled. `add_1rm_column` never reaches it, because `to_numeric` turns missing cells into NaN first.
- `Epley.EstimateWeightFrom1Rm`: a missing argument (`None`) is modelled as NaN. For a zero one-rep max with `None` reps, the source raises the same TypeError, and that error is not modelled either.
- `Epley.EstimateWeightFrom1Rm`: the source has a branch for a zero one-rep max inside the invalid-input test. That branch can never fire, because zero is not negative. A zero one-rep max takes the formula path and gives 0, and the model has the same dead branch.
- The check at the top of each function that the required columns exist is left out. The model's rows always carry Exercise, Weight and Reps.
- The JavaScript copy of the target rule in the HTML viewer is not part of this model.
- The running-side Riegel equivalent-pace model and the other viewers are outside this core.
