# Verified models of Startkladde algorithms

This project models the self-contained algorithms and protocols of the flight-logging program
Startkladde and of its helper scripts in Dafny, and proves what they promise: the layout of
rectangles, the hand-over of results between threads, CSV export, NMEA sentences and angles,
longitudes, the order of numbered strings, the line queue of the serial handler, and the mocker of
translation files. `dafny verify dfyconfig.toml` checks everything.

| files | what is modelled |
|---|---|
| `LayoutGeometry`, `LayoutConvergence`, `LayoutMultipliers`, `LayoutOptimality`, `LayoutCorner`, `LayoutPlacement`, `RectangleLayout` | the layout heuristic: orthogonal projections onto a convex polyhedron, the loop of them and how good it is, rounding, the final sweep, and the object that runs them in place |
| `Waiter`, `Returner`, `ReturnerDelivery`, `ReturnerObject` | one-shot notification and delivery of a value or an exception, as atomic steps of any number of threads |
| `Csv` | the CSV printer, and a reader by section 2 of RFC 4180 as its inverse |
| `Nmea`, `Angle` | sentences with their checksum; angles as degrees and decimal minutes |
| `Longitude` | degrees, minutes and seconds with a remainder; printing, parsing, normalisation |
| `NumericOrder` | the sort criterion for strings with a number suffix |
| `SerialQueue` | the bounded queue whose producer throws lines away |
| `TsLines`, `TsPatterns`, `TsFileMocker`, `TsFileOutput`, `TsFixpoint`, `TsDocument`, `TsWellFormed` | the lines of a translation file and the patterns for them, the state machine that rewrites unfinished translations, the text it writes, its effect on that text, and what it makes of whole files |
| `Products`, `Reals`, `Decimal`, `Texts`, `Sequences`, `Wrappers` | products and squares, rounding, numerals, parts of texts and white space, sequences of numbers, optional values |

Conventions. Doubles are exact real numbers. `sqrt(2)/2` is a real w > 0 with 2w² = 1; the layout
object is given the square root of 2. Integers are unbounded, except that `Longitude` checks the
32-bit ranges: its conversion to degrees, minutes and seconds is defined only where the rounded
seconds fit an int. `std::sort` is not stable and is modelled as the choice of any sorted
permutation. The methods `Advance` and `Do` of `SharedWaiter`, `SharedReturner` and `SerialHandler`
make one atomic step; the lemmas quantify over all schedules of such steps. The other methods have
the shape of the source's own and are proved to be runs of such steps. The source relies on a
`QWaitCondition` without spurious wakeups, since `wait` tests the flag only once;
`Waiter.EarlyReturnIsSpurious` and `Waiter.SpuriousWakeupReturnsEarly` say exactly what they would do.

Where the code does not do what its comments say, the model follows the code, and where a comment
only supposes something, it is settled:

- `src/Longitude.cpp:133` documents `positive` as "value ≥ 0"; the code tests the rounded value, so
  `positive` holds exactly from −1/7200 degree on (`Longitude.SignIsDocumented`).
- `src/Longitude.cpp:86-87` documents a positive offset for a longitude to the east of the other one; across
  the 180th meridian it is negative (`Longitude.EastIsLaterExactly`).
- `src/text.cpp:201-217` documents a comparison of prefixes, and of number suffixes where they are
  equal, but the first group of the pattern is greedy and leaves the second one the last digit only,
  so that what is compared as prefixes holds all other digits. `NumericOrder.KeepsDocumentedOrder`
  says for which of all matching strings the order is the documented one. It is not for "ttyS100",
  which comes before "ttyS20", for "a7" and "a05", for "a-34" and "a12", and for "a5x3" and "a95". As a
  sort criterion it is transitive on some sets of strings and not on others;
  `NumericOrder.TransitiveExactly` says on which.
- `src/data/Csv.cpp:30-45` does not quote a cell for a line break, so the round trip has a condition.
- `script/nmea.rb:13-28` loses a minute when the fractional minute rounds up to 1. Where the degrees
  need more than the fixed number of digits, the angle reads back wrongly. For a negative angle, of
  which `script/flarm_mover.rb:55-60` can make some, the code cuts off the sign of the fraction instead
  of its zero; `Angle.Printable` is the exact condition for all angles.
- `script/client/serialhandler.py:174-177` throws away the oldest queued line and also drops the line
  just read; and since the queue may be drained between the test and the get, the program can hang.
- `src/algorithms/RectangleLayout.h:49-50` supposes that the constraints have no corner at which the
  heuristic fails; `LayoutMultipliers.NoObtuseCorner` proves it, for any number of items.

## Model

| member | source | states |
|---|---|---|
| `LayoutGeometry.LargestAmong` | src/algorithms/RectangleLayout.cpp:103-125 | the index found is −1 exactly when no constraint is violated, otherwise the first one with the largest weighted overlap |
| `LayoutGeometry.LargestIsUnique` | src/algorithms/RectangleLayout.cpp:103-125 | that description determines the index |
| `LayoutGeometry.WeightedOverlapIsDistance` | src/algorithms/RectangleLayout.h:57-65 | the squared weighted overlap is the squared distance from the constraint: nothing that meets the constraint is closer, and the projection is exactly that close and meets it |
| `LayoutGeometry.ProjectionLength` | src/algorithms/RectangleLayout.cpp:151-159 | a step has the squared length o² at item 0 and o²/2 at every other item |
| `LayoutGeometry.ProjectionApproaches` | src/algorithms/RectangleLayout.cpp:151-159 | a step is an orthogonal projection: the squared distance to every vector that meets the constraint drops by at least the squared length of the step |
| `LayoutGeometry.Stacked` | src/algorithms/RectangleLayout.h:33-35 | a feasible layout always exists |
| `LayoutConvergence.StepIsFarthest` | src/algorithms/RectangleLayout.h:45-47 | every move goes to the farthest violated constraint |
| `LayoutConvergence.StepIsLong` | src/algorithms/RectangleLayout.cpp:146-159 | every move that does not stop the loop has a squared length of at least 0.001²/2 |
| `LayoutConvergence.RunApproaches` | src/algorithms/RectangleLayout.cpp:218-222 | over every run the squared distance to every feasible vector drops by at least the summed squared lengths of all moves |
| `LayoutConvergence.MovesAreBounded` | src/algorithms/RectangleLayout.cpp:135-162 | no run makes more than 2,000,000·‖y − z‖² moves, for every feasible z |
| `LayoutConvergence.EndsByItself` | src/algorithms/RectangleLayout.cpp:218-222 | with a limit above that bound the loop has stopped by itself, and larger limits give the same result |
| `LayoutConvergence.LimitExists` | src/algorithms/RectangleLayout.cpp:213-222 | for every layout there is an iteration limit from which on the loop stops by itself |
| `LayoutConvergence.StopsExactly` | src/algorithms/RectangleLayout.cpp:141-149 | the loop stops exactly if no item overlaps, or the raw overlap of the item with the largest weighted one is below 0.001 |
| `LayoutConvergence.EndsAChain` | src/algorithms/RectangleLayout.cpp:218-222 | the result is the last of a run of positions from the targets, each one the move of the one before; it has at most as many moves as the limit says, none for a limit of 0 or less, and fewer only where the loop stops by itself |
| `LayoutConvergence.ConvergedOverlap` | src/algorithms/RectangleLayout.cpp:141-149 | where the loop stops by itself every raw overlap is below √2/1000, and that of item 0 below 1/1000 |
| `LayoutMultipliers.NoObtuseCorner` | src/algorithms/RectangleLayout.h:49-50 | for any number of items: projecting onto one constraint never makes another one slack, so no two constraints meet at more than 90 degrees |
| `LayoutMultipliers.RunIsCertified` | src/algorithms/RectangleLayout.cpp:135-162 | over every run the moves add up to one non-negative multiplier for each constraint, which is used only while that constraint is not slack |
| `LayoutOptimality.NearOptimal` | src/algorithms/RectangleLayout.h:29-47 | at every point of the loop, for any number of items: the target function is at most that of any feasible layout, so of the best one, and less by at least the squared distance still between the two |
| `LayoutOptimality.ReachedIsNearest` | src/algorithms/RectangleLayout.h:40-47 | a feasible point reached after any number of steps is the only feasible point nearest to the targets, and the loop ends there |
| `LayoutOptimality.StopsNearTheOptimum` | src/algorithms/RectangleLayout.h:67-70 | where the loop stops by itself, moving item i down by (i + 1)·0.0015 makes the positions feasible, and the nearest feasible layout is no farther from the stopped positions, in squared distance, than that change makes the target function worse |
| `LayoutCorner.CornerIsNearest` | src/algorithms/RectangleLayout.h:47-49 | with two items, from the cone opposite to the corner of the two constraints, the corner is the nearest feasible point |
| `LayoutCorner.ConvergesToCorner` | src/algorithms/RectangleLayout.h:47-49 | where the loop stops by itself in that cone, it is within 4/1000 of the corner |
| `LayoutCorner.EdgeOrCorner` | src/algorithms/RectangleLayout.h:47-49 | the statement about two dimensions: the loop either steps onto the nearest feasible point, on one edge, and ends there, or the corner is the nearest feasible point and the loop ends close to it |
| `LayoutPlacement.RoundIsNearest` | src/algorithms/RectangleLayout.cpp:176 | a position is rounded to the one integer k with x − 1/2 < k ≤ x + 1/2: the nearest one, halves upwards |
| `LayoutPlacement.RoundedKeepsFeasible` | src/algorithms/RectangleLayout.cpp:169-178 | rounding keeps every constraint with an integer gap |
| `LayoutPlacement.RoundedOverlap` | src/algorithms/RectangleLayout.cpp:169-178 | rounding positions with overlaps below 1/2 at item 0 and below 1 elsewhere leaves none at item 0 and at most 1 elsewhere |
| `LayoutPlacement.ForcedAt` | src/algorithms/RectangleLayout.cpp:188-203 | on integer positions the sweep puts every item at the larger of its position and the bound set by the item before it |
| `LayoutPlacement.ForcedIsFeasible` | src/algorithms/RectangleLayout.cpp:188-203 | on integer positions the result of the sweep is feasible, integral and nowhere smaller than the input |
| `LayoutPlacement.ForcedIsLeast` | src/algorithms/RectangleLayout.cpp:188-203 | ... and it is the least such vector: every feasible vector above the input is above the result, item by item |
| `LayoutPlacement.ForcedFixpoint` | src/algorithms/RectangleLayout.cpp:188-203 | exactly the feasible vectors are left unchanged |
| `LayoutPlacement.ForcedDisplacement` | src/algorithms/RectangleLayout.cpp:188-203 | with overlaps of at most 1, none at item 0, the sweep moves sorted item i down by at most i |
| `RectangleLayout.SortedPermutationExists` | src/algorithms/RectangleLayout.cpp:215-216 | every list has a sorted permutation, so the sort can always choose |
| `RectangleLayout.StrictlySortedIsUnique` | src/algorithms/RectangleLayout.h:94 | without equal positions the sort has one possible result |
| `RectangleLayout.LaidIsFeasible` | src/algorithms/RectangleLayout.cpp:213-232 | for every input order, sort result and iteration limit: integer positions, item 0 at or below the spacing, every next item at least height plus spacing lower, and the indices and heights are a permutation of those added |
| `RectangleLayout.SortKeepsTargets` | src/algorithms/RectangleLayout.h:33-38 | in every sorted permutation an item with a smaller target, known by its original index, comes before one with a larger target |
| `RectangleLayout.LaidIsDisjoint` | src/algorithms/RectangleLayout.cpp:79-81 | with non-negative heights and spacing no two items overlap, not only neighbours, and none overlaps the top |
| `RectangleLayout.ConvergedDisplacement` | src/algorithms/RectangleLayout.cpp:224-231 | where the loop stopped by itself, the final position of sorted item i is at most 1/2 above and at most i + 1/2 below the optimised one |
| `RectangleLayout.FeasibleIsOnlyRounded` | src/algorithms/RectangleLayout.cpp:224-231 | where the loop reached a feasible layout, the result is that layout rounded |
| `RectangleLayout.FeasibleIsFinal` | src/algorithms/RectangleLayout.cpp:213-232 | feasible integer positions are left alone whatever the iteration limit |
| `RectangleLayout.LayoutIsIdempotent` | src/algorithms/RectangleLayout.cpp:213-232 | when every height plus spacing is positive (the last height does not matter), a second layout changes nothing, whatever the sorts choose and the limits are |
| `RectangleLayout.SettlesExactly` | src/algorithms/RectangleLayout.cpp:213-232 | for any heights: a second layout is sure to change nothing, for all targets, sorts and limits, exactly when there is at most one item or every height plus spacing is positive |
| `RectangleLayout.RectangleLayout.constructor` | src/algorithms/RectangleLayout.h:97 | a new layout has no items |
| `RectangleLayout.RectangleLayout.SetSpacing` | src/algorithms/RectangleLayout.cpp:23-26 | sets the spacing and nothing else |
| `RectangleLayout.RectangleLayout.AddItem` | src/algorithms/RectangleLayout.cpp:36-45 | appends one item, and the original indices stay 0, 1, ... in some order, after a layout too |
| `RectangleLayout.RectangleLayout.OverlapOf` | src/algorithms/RectangleLayout.cpp:77-96 | returns by how much the item violates its constraint |
| `RectangleLayout.RectangleLayout.LargestOverlap` | src/algorithms/RectangleLayout.cpp:103-125 | returns the first index of the largest weighted overlap, −1 if there is none |
| `RectangleLayout.RectangleLayout.OptimizeIteration` | src/algorithms/RectangleLayout.cpp:135-162 | stops exactly by the stopping test and changes nothing then; otherwise replaces the positions by the projection onto the farthest constraint |
| `RectangleLayout.RectangleLayout.RoundPositions` | src/algorithms/RectangleLayout.cpp:169-178 | every position becomes an integer that is less than 1/2 smaller and at most 1/2 larger, in place, and nothing else changes |
| `RectangleLayout.RectangleLayout.ForceNoOverlaps` | src/algorithms/RectangleLayout.cpp:188-203 | replaces the positions by the result of the sweep, of which the `Forced` lemmas speak |
| `RectangleLayout.RectangleLayout.DoLayout` | src/algorithms/RectangleLayout.cpp:213-232 | the items end as the layout, of which the `Laid` lemmas speak, of some sorted permutation of the items before, and an item with a smaller target than another one, known by their original indices, comes before it |
| `Waiter.InvRun` | src/concurrent/Waiter.cpp:40-66 | the invariant of mutex, flag and threads holds after every schedule, and the flag is never cleared |
| `Waiter.NoLostWakeup` | src/concurrent/Waiter.cpp:40-66 | in every interleaving of any number of threads: with the flag set and the mutex free no thread is asleep, and at most one thread is inside the mutex |
| `Waiter.WaitReturnsAfterNotify` | src/concurrent/Waiter.cpp:52-66 | a thread has returned from `wait` only if a thread inside `notify` has set the flag earlier in the run |
| `Waiter.EarlyReturnIsSpurious` | src/concurrent/Waiter.cpp:61-65 | with spurious wakeups as further events: a thread that has returned from `wait` without the flag was itself woken by one |
| `Waiter.SpuriousWakeupReturnsEarly` | src/concurrent/Waiter.cpp:61-65 | in every reachable state with a sleeper and no flag, unless a thread inside `notify` has the mutex, one spurious wakeup is enough to make `wait` return without the flag |
| `Waiter.StepDecreases` | src/concurrent/Waiter.cpp:40-66 | every step of any thread brings all calls together closer to their end |
| `Waiter.RunsAreFinite` | src/concurrent/Waiter.cpp:40-66 | no schedule is longer than the bound of its initial state |
| `Waiter.EveryCallReturns` | src/concurrent/Waiter.cpp:36-50 | if some thread calls `notify`, a run that cannot go on has returned from every call, repeated ones too |
| `Waiter.StuckMeansUnnotified` | src/concurrent/Waiter.cpp:52-66 | a run can get stuck only with threads asleep before any notification, never in the mutex |
| `Waiter.NotifiedProgress` | src/concurrent/Waiter.cpp:36-66 | once the flag is set, a step of a waiting thread brings it closer to returning, one of the holder of the mutex brings that closer to releasing it, and no step of another thread sets the waiting one back |
| `Waiter.ReturnsWithinSix` | src/concurrent/Waiter.cpp:36-66 | over every run of steps of a waiting thread and of the holders of the mutex, once the flag is set: there are at most six until the thread has returned, and until then the run can go on |
| `Waiter.ReturnExists` | src/concurrent/Waiter.cpp:36-66 | such a run to the return of the thread exists from every state of the invariant with the flag set |
| `Waiter.OwnStepsAreBounded` | src/concurrent/Waiter.cpp:52-66 | over every run of any threads, once the flag is set, a waiting thread makes at most three steps of its own |
| `Waiter.SharedWaiter.Notify` | src/concurrent/Waiter.cpp:40-50 | locks, sets the flag, wakes all and unlocks, as a run of the four steps, and leaves no thread asleep |
| `Waiter.SharedWaiter.Wait` | src/concurrent/Waiter.cpp:56-66 | returns if the flag is set and falls asleep otherwise, as a run of the steps |
| `Waiter.SharedWaiter.Return` | src/concurrent/Waiter.cpp:64-66 | a woken thread locks and unlocks, as a run of the two steps |
| `Waiter.SharedWaiter.Advance` | src/concurrent/Waiter.cpp:40-66 | one step of one thread on the shared mutex, flag and queue of sleepers changes the state as the step relation says |
| `Waiter.SharedWaiter.WakeAll` | src/concurrent/Waiter.cpp:49 | moves exactly the sleeping threads to locking the mutex again |
| `ReturnerDelivery.RInvRun` | src/concurrent/Returner.h:137-160 | the invariant of result slot, exception slot, worker and callers holds after every schedule |
| `ReturnerDelivery.DeliversFaithfully` | src/concurrent/Returner.h:95-110 | in every interleaving, whatever a call by any thread returns or throws, early, late or repeated, is exactly what the worker passed |
| `ReturnerDelivery.WorkerHasLeft` | src/concurrent/Returner.h:95-110 | once a caller has left the wait, no continuation of the run has a step of the worker on the object |
| `ReturnerDelivery.StepsLeftDecreases` | src/concurrent/Returner.cpp:27-43 | every step of a delivery brings all threads closer to their end |
| `ReturnerDelivery.DeliveriesAreFinite` | src/concurrent/Returner.cpp:27-43 | no schedule is longer than the bound of its initial state |
| `ReturnerDelivery.EveryCallGetsIt` | src/concurrent/Returner.h:142-160 | a run that cannot go on has delivered the outcome to every call of every caller |
| `ReturnerObject.SharedReturner.Deliver` | src/concurrent/Returner.h:137-141 | stores the value or the exception, then notifies, as a run of the five steps |
| `ReturnerObject.SharedReturner.Fetch` | src/concurrent/Returner.h:154-160 | after the notification a call throws the stored exception, or else returns the value, immediately, as a run of the steps |
| `ReturnerObject.SharedReturner.Advance` | src/concurrent/Returner.cpp:27-43 | one step of one thread on the shared slots and the waiter changes the state as the step relation says |
| `Csv.CsvPrinter.Escape` | src/data/Csv.cpp:30-45 | doubles every quote, and quotes the result if it contains the separator (any string) or a quote |
| `Csv.CsvPrinter.ToString` | src/data/Csv.cpp:47-78 | prints the header and all rows, each cell escaped, in order |
| `Csv.EscapedIs` | src/data/Csv.cpp:17-45 | for a single-character separator a cell is quoted exactly when its own text has a separator or a quote, and is otherwise unchanged |
| `Csv.FeedCell` | src/data/Csv.cpp:30-45 | reading an escaped cell gives exactly its text, if a line break in it comes with a quote or a separator |
| `Csv.FeedLine` | src/data/Csv.cpp:55-62 | reading a printed line adds exactly one record, with the cells printed |
| `Csv.RecordCount` | src/data/Csv.cpp:47-78 | for every table with a column, the reader finds one record per line and one more for each line break in a cell that is not quoted |
| `Csv.NoColumns` | src/data/Csv.cpp:56-62 | a table without columns does not read back |
| `Csv.RoundTrip` | src/data/Csv.cpp:47-78 | reading the printed text gives back the header and all rows exactly when there is a column and every cell with a line break also has a quote or a separator |
| `Nmea.CalculateChecksum` | script/nmea.rb:2-6 | computes two upper-case hexadecimal digits, the upper one first, of which the value is the exclusive or of all bytes |
| `Nmea.XorOfTwo` | script/nmea.rb:3-4 | the sum of no bytes is 0, that of one byte is the byte, that of two texts is the exclusive or of their sums, and a text followed by itself has the sum 0 |
| `Nmea.HexIsRead` | script/nmea.rb:5 | the two digits are among 0 to 9 and A to F, and sixteen times the first plus the second is the number |
| `Nmea.HexIsInjective` | script/nmea.rb:5 | different sums have different digits |
| `Nmea.ChecksumDetects` | script/nmea.rb:2-6 | replacing any byte by another one changes the checksum, and so does dropping a leading dollar |
| `Nmea.SplitsTheFirst` | script/nmea.rb:35-49 | the first place of a text where a line holds a dollar, a payload without stars, a star and two bytes is the one that counts: it is split if those two are the checksum of the payload |
| `Nmea.SplitsNothingElse` | script/nmea.rb:35-49 | a text with no such place is not split |
| `Nmea.JoinedIs` | script/nmea.rb:51-54 | a joined sentence is a dollar, the joined parts, a star, and two digits of which the value is the exclusive or of the joined parts |
| `Nmea.JoinSplitRoundTrip` | script/nmea.rb:35-54 | splitting a joined sentence, with or without a line break after it, gives the parts without trailing empty ones exactly when no part has a comma or a star |
| `Nmea.SingleByteErrorIsDetected` | script/nmea.rb:35-49 | in a sentence without line breaks, replacing any single byte, of payload, checksum or frame, by any other makes the split fail |
| `Nmea.PayloadErrorIsDetected` | script/nmea.rb:35-49 | with line breaks in the payload too, replacing a payload byte by any other but a star makes the split fail |
| `Angle.ToFOfDigits` | script/nmea.rb:10 | digits with a decimal fraction of any length, or none, are read as all the digits with the point moved to the left, with or without a sign |
| `Angle.ReadingStops` | script/nmea.rb:10 | a number ends where anything else follows its digits, or the digits after its point |
| `Angle.ParsesDegrees` | script/nmea.rb:9-11 | an angle of degrees, two minute digits and a fraction of any length is read as the degrees and a sixtieth of the minutes with their fraction; without a point as the degrees and a sixtieth of the minutes |
| `Angle.FormatAngle` | script/nmea.rb:13-28 | returns the text, and never raises, for every angle and number of digits |
| `Angle.MillionthsAreNearest` | script/nmea.rb:17-25 | the millionths printed are the nearest integer to a million times the fractional minute, of two equally near ones the even one |
| `Angle.TextOf` | script/nmea.rb:16-27 | the text of every angle: the signed degrees and minutes as padded, for a negative fraction the digit before its point, a point, and the six digits of the rounded fraction |
| `Angle.TooManyDegrees` | script/nmea.rb:9-28 | an angle whose degrees need more digits reads back at least two degrees too low |
| `Angle.FittingNegative` | script/nmea.rb:9-28 | for a negative angle whose degrees fit, how far off it reads back, by its whole minute and its fraction |
| `Angle.TooManyNegativeDegrees` | script/nmea.rb:9-28 | a negative angle whose degrees and sign need more characters reads back at least one degree too high |
| `Angle.FormatParseError` | script/nmea.rb:9-28 | for every angle: printing and parsing is exact to half a millionth of a minute exactly when the angle is printable. Not negative: the degrees fit the digits and the fractional minute is below 0.9999995. Negative: the degrees are zero or fit one digit less, and the fractional minute is zero, or at least −0.0000005 without a whole minute |
| `Angle.FormatParseAngleError` | script/nmea.rb:9-28 | the same for angles in any unit |
| `Angle.ParseFormatText` | script/nmea.rb:9-28 | a text with two minute digits and six fractional digits is reproduced by parsing and printing exactly when its minutes are below 60 |
| `Longitude.ToDms` | src/Longitude.cpp:137-163 | minutes and seconds are below 60, degrees, minutes, seconds, sign and remainder make up the value, and the remainder is at least −1/7200 and below 1/7200 |
| `Longitude.DmsIsUnique` | src/Longitude.cpp:122-136 | where the conversion is defined, these properties determine the result |
| `Longitude.SignIsDocumented` | src/Longitude.cpp:133-150 | the computed sign is the documented one exactly for the values that are not below 0 and from −1/7200 on |
| `Longitude.QuarterSecondWest` | src/Longitude.cpp:133-150 | −1/14400 degree is positive |
| `Longitude.DmsRoundTrip` | src/Longitude.cpp:46-51 | the result of the constructor from degrees, minutes and seconds can be converted back exactly when it has less than 2³¹ seconds; it is then inverted, except for the sign of zero, exactly when minutes and seconds are below 60 |
| `Longitude.ParsesSpelling` | src/Longitude.cpp:191-239 | every spelling of every documented format is understood, with the documented sign, and is invalid only for numbers of 2³² and above |
| `Longitude.ParsesOnlySpellings` | src/Longitude.cpp:205-239 | whatever parses is such a spelling between white space |
| `Longitude.FormatIsSpelling` | src/Longitude.cpp:178-189 | the printed text is degrees, minutes and seconds without leading zeros, each with its unit sign, and the direction, with one space between |
| `Longitude.FormatRoundTrip` | src/Longitude.cpp:178-189 | the printed text parses as the value without its remainder |
| `Longitude.NormalizedInRange` | src/Longitude.cpp:62-79 | a normalised value is above −180 and at most 180, whole turns from the original |
| `Longitude.NormalForm` | src/Longitude.cpp:62-79 | two values are normalised to the same value exactly when they differ by whole turns |
| `Longitude.EastIsLaterExactly` | src/Longitude.cpp:81-97 | for a longitude by less than half a turn to the east of the other one the solar time offset is 240 seconds for each degree, and so positive as documented, exactly if the 180th meridian is not between them; otherwise it is a day less, and negative |
| `Longitude.AcrossTheDateLine` | src/Longitude.cpp:81-97 | 179° W is two degrees to the east of 179° E, and its offset is −85920 seconds |
| `Longitude.Offsets` | src/Longitude.cpp:81-115 | the offsets are below a day, add up along chains, are opposite to each other, and do not depend on whole turns |
| `NumericOrder.BeforeIs` | src/text.cpp:210-211 | the lexicographical order is decided at the first index at which the strings differ, by the smaller character or the end of the string |
| `NumericOrder.MatchesExactly` | src/text.cpp:222-234 | a string matches if it is a first group without line breaks and a second one of digits in some way, and what is captured is the way with the longest first group |
| `NumericOrder.IsStrictAndTotal` | src/text.cpp:220-261 | on all strings the criterion is irreflexive, asymmetric and total |
| `NumericOrder.IsTransitive` | src/text.cpp:220-261 | it is transitive on the strings that match the pattern, and on those that do not |
| `NumericOrder.DiffersWhenInverted` | src/text.cpp:243-260 | the criterion differs from the lexicographical order exactly for two matching strings of which the prefix of the first is a proper prefix of that of the second, which goes on with a character below the last digit of the first |
| `NumericOrder.FailureIsCycle` | src/text.cpp:220-261 | every failure of transitivity is a cycle of such a pair and a string that does not match between the two |
| `NumericOrder.TransitiveExactly` | src/text.cpp:198-199 | for every set of strings: the criterion is transitive on it, and so can sort it, exactly when it has no such pair with such a string |
| `NumericOrder.IsNotTransitive` | src/text.cpp:220-261 | "a9", "a10" and "a5x" are a cycle |
| `NumericOrder.SameLengthIsNumeric` | src/text.cpp:201-208 | after a common prefix, suffixes of the same length are compared by value |
| `NumericOrder.ShorterIsNumericExactly` | src/text.cpp:201-208 | a shorter and a longer number suffix, with or without leading zeros, are compared by the shorter one without its last digit and as many leading digits of the longer one |
| `NumericOrder.EqualValues` | src/text.cpp:206-208 | of two suffixes of different lengths and equal value the longer one comes first lexicographically, unless the value is zero |
| `NumericOrder.KeepsSuffixOrder` | src/text.cpp:205-208 | for all number suffixes after a common prefix, leading zeros and equal values included: the documented order is kept exactly when the lengths are equal, or else, where the shorter one without its last digit is at most as many leading digits of the longer one, when the shorter one is smaller or zero, and elsewhere when the longer one is not larger |
| `NumericOrder.DifferentStems` | src/text.cpp:204-205 | for two different prefixes, neither ending in a digit: if neither starts the other, they are compared as documented; if the first starts the second, the criterion compares the number after the first, without its last digit, with what the second has in its place |
| `NumericOrder.KeepsDocumentedOrder` | src/text.cpp:201-208 | for all strings that match the pattern, split into the documented prefix and all digits at the end: the documented order is kept exactly when the prefixes are equal and that of their suffixes is kept, or neither prefix starts the other, or the number after the one that does, without its last digit, comes before the rest of the longer prefix |
| `NumericOrder.HundredBeforeTwenty` | src/text.cpp:213-223 | "ttyS2" comes before "ttyS10" as documented, but "ttyS100" before "ttyS20" |
| `NumericOrder.SevenBeforeFive` | src/text.cpp:213-223 | "abc012" comes before "abc12" as documented, but "a7" before "a05" |
| `NumericOrder.DashBeforeDigit` | src/text.cpp:213-223 | "ttyS1" comes before "ttyUSB0" as documented, but "a-34" before "a12" and "a5x3" before "a95" |
| `SerialQueue.InvRun` | script/client/serialhandler.py:119-177 | order, conservation and capacity hold after every run |
| `SerialQueue.PutNeverBlocks` | script/client/serialhandler.py:174-177 | in every interleaving the queue has at most ten lines and the producer's put never blocks |
| `SerialQueue.SentInOrder` | script/client/serialhandler.py:62-71 | the texts sent in a run are texts read in it, in the order of reading, none twice, and the handler never finds an empty line; line k is the k-th text read that is not empty |
| `SerialQueue.ThrowsAwayTheOldest` | script/client/serialhandler.py:174-175 | what is thrown away is the oldest line queued, the others stay, and the line just read is dropped |
| `SerialQueue.EveryLineIsSomewhere` | script/client/serialhandler.py:62-71 | every line read is in exactly one place: sent, lost in a failed send, thrown away from the queue, dropped, queued, or in the hands of producer or consumer |
| `SerialQueue.HangsExactly` | script/client/serialhandler.py:174-177 | the program hangs exactly when the producer is to throw away a line of an emptied queue while the consumer waits for one |
| `SerialQueue.GetBlocksAfterTenTakes` | script/client/serialhandler.py:174-175 | a line is to be thrown away exactly if ten are queued at the test, and after that the producer's get finds a line exactly until the consumer has taken all ten |
| `SerialQueue.CanHang` | script/client/serialhandler.py:174-177 | a run that hangs exists |
| `SerialQueue.SerialHandler.HandleRead` | script/client/serialhandler.py:172-177 | a line read is appended to the lines read, and put, or if ten are queued the oldest one is thrown away and the line read is dropped, as a run of the actions |
| `SerialQueue.SerialHandler.HandleLine` | script/client/serialhandler.py:66-71 | the oldest line is taken, sent if not empty, and marked as done if sending did not fail, as a run of the actions |
| `SerialQueue.SerialHandler.Do` | script/client/serialhandler.py:62-71 | one atomic action on the shared queue changes the state as the step relation says |
| `TsLines.SplitsIntoLines` | script/mock.rb:236-242 | the lines of a file make up the file, each ends at a line break, and only the last one may have none |
| `TsLines.ClassifyNoTag` | script/mock.rb:165-202 | a line without tags matches none of the patterns |
| `TsLines.ClassifySourceStart` | script/mock.rb:176-179 | the first line of a source that goes on is recognised, with the text after the tag, line break included |
| `TsLines.ClassifySourceEnd` | script/mock.rb:180-183 | its last line is recognised, with the text before the closing tag |
| `TsLines.ClassifyWholeSource` | script/mock.rb:173-175 | a source on one line is recognised, with the text between the tags |
| `TsLines.ClassifyHead` | script/mock.rb:192-195 | the first line of what is written for a translation is the start of an unfinished one, if it goes on |
| `TsLines.ClassifyWhole` | script/mock.rb:188-191 | ... and a whole unfinished translation, if it does not |
| `TsLines.SameKind` | script/mock.rb:165-202 | a line break at the end does not change which pattern matches |
| `TsPatterns.ClassifiesByTheFirst` | script/mock.rb:165-198 | for every line: its kind, with the numerus attribute or the captured text, is that of the first of the patterns that fits, each pattern told by the places at which its parts stand in the line |
| `Texts.SpacesAre` | script/mock.rb:165-198 | white space is the characters from 9 to 13, and 32 |
| `TsPatterns.ClassifyMessage` | script/mock.rb:165-171 | an indented message tag starts a numerus message if the attribute follows it |
| `TsPatterns.ClassifyPlainMessage` | script/mock.rb:165-171 | ... and a plain one if the line has the attribute nowhere |
| `TsFileMocker.FileMocker.ProcessOne` | script/mock.rb:161-234 | one line changes the state, and calls the outputter, as specified; a raise comes before any output |
| `TsFileMocker.FileMocker.ProcessFile` | script/mock.rb:236-242 | the lines are processed in order, up to the first that raises |
| `TsFileMocker.SubstitutesEach` | script/mock.rb:215-216 | every occurrence of "(s)" is replaced |
| `TsFileMocker.SubstitutesOnly` | script/mock.rb:215-216 | a text without "(s)" is left alone |
| `TsFileMocker.AppendsInsideSource` | script/mock.rb:184-186 | inside a source every line that matches no pattern of messages and sources is appended to its text and copied, whatever it says of translations |
| `TsFileMocker.ConsumesEveryLine` | script/mock.rb:228-233 | on every run that does not raise, the copy and eat calls in order are exactly the input lines, each once |
| `TsFileMocker.RaisesExactly` | script/mock.rb:204-205 | a line raises exactly when it starts a multi-line source inside an unfinished translation |
| `TsFileMocker.RunRaisesExactly` | script/mock.rb:161-242 | a run raises exactly when it meets such a line |
| `TsFileMocker.WellFormedIsTame` | script/mock.rb:161-205 | in a file of messages, each one source and then one translation, no source line comes inside an unfinished translation |
| `TsFileMocker.TameNeverRaises` | script/mock.rb:161-242 | a file without source lines inside unfinished translations never raises |
| `TsFileOutput.WrittenTranslation` | script/mock.rb:211-223 | for an unfinished translation of a numerus message a head, two forms and an end are written on four lines, otherwise one element |
| `TsFileOutput.TranslationTextIs` | script/mock.rb:214-223 | that text, character by character: the singular form first, without "(s)", then the plural one, with "s" |
| `TsFileOutput.CapturesSource` | script/mock.rb:173-186 | the text of a source element, on one line or on several, is captured exactly, and its lines are copied |
| `TsFileOutput.CopiesHead` | script/mock.rb:165-187 | whatever came before, everything in a message up to its translation is copied, and its source and form are known after it |
| `TsFileOutput.MocksItsSource` | script/mock.rb:161-234 | ... and a line that starts an unfinished translation is replaced by the mocked text of the source of its own message, as its own message is numerus or not |
| `TsDocument.MocksMessage` | script/mock.rb:161-234 | in a whole message an unfinished translation, on one line or on several, is replaced by that text, and everything else, a finished translation too, is copied |
| `TsDocument.MocksTheFile` | script/mock.rb:236-242 | the output of a whole file of messages is that file with every unfinished translation, eaten lines included, replaced by the mocked text of the source of its message, and nothing else changed |
| `TsWellFormed.OutputIsDescribed` | script/mock.rb:161-242 | for every well-formed file, whatever its white space and wherever it ends: it is processed without raising, and for each line the output is the mocked text of the last source of its message where an unfinished translation starts, nothing on the other lines of one, and the line itself elsewhere, as looking back at the lines before it tells |
| `TsWellFormed.MessagesAreWellFormed` | script/mock.rb:161-242 | every file of messages is well-formed, and the two descriptions of its output agree |
| `TsFixpoint.ReproducesTranslation` | script/mock.rb:211-223 | run on what it writes for a translation, the mocker writes the same again and keeps its state, for every mocked text without tags, with or without line breaks |
| `TsFixpoint.ReproducesLine` | script/mock.rb:161-234 | run on what it writes for one line, the mocker writes the same again |
| `TsFixpoint.ReproducesLines` | script/mock.rb:161-242 | ... and so for any number of lines, the last one with or without a line break |
| `TsFixpoint.IsAFixpoint` | script/mock.rb:161-242 | the output for the output of a file without source lines inside unfinished translations is that output |
| `TsFixpoint.WellFormedIsFixpoint` | script/mock.rb:161-242 | a well-formed file is processed without raising, and its output is a fixpoint |

## Left out

- `NumericOrder.KeepsDocumentedOrder`: for the strings that match the pattern of the code; with a line break before its last character a string does not, although the documented criterion would apply, and it is compared lexicographically.
- IEEE rounding and overflow of doubles, and overflow of 32-bit integers in the layout and in the parsed suffix digit.
- More than one call of `returnValue` or `exception` on one returner: its contract forbids that.
- `Returner<void>` and the macros, which add nothing to the steps modelled, and the cloning of exceptions.
- The destruction of mutex and wait condition; `ReturnerDelivery.WorkerHasLeft` states what makes it safe.
- `Csv.RoundTrip`: for separators of one character other than quote and line break, because RFC 4180 knows no others; the printer is modelled for every separator string.
- The character ranges of unquoted fields in RFC 4180: the reader takes any character but quote, separator and line break, so also a lone carriage return.
- Encodings in `Nmea`: sentences are bytes, where Ruby matches strings and raises for invalid ones.
- The conversion of Qt models and variants to strings: the CSV model is a table of strings.
- `Angle.FormatParseError`: for at least one degree digit; every caller passes two or three.
- White space, underscores and exponents that Ruby's `to_i` and `to_f` also read: no printed angle has them; the parser model reads a sign, digits and a decimal fraction.
- `TsDocument.MocksTheFile`: for files whose last line has a line break and whose sources have no tags, as the escaping of XML ensures.
- `%f` is modelled as rounding to six digits with ties to even.
- The pattern classes for digits and white space are those of ASCII, strings are sequences of characters compared by code, and the unit and direction texts are the untranslated ones.
- The single-argument constructor, the property setters and the string helpers of `Longitude`.
- Opening and reopening serial devices, time limits, sockets, process identifiers and the watching process: a line read, a failed send and a new connection are actions that may come at any time.
- A file that is not ASCII, for which the reading thread ends.
- The string mockers: a mocker is any function of the text; the fixpoint theorems ask that its results have no opening angle bracket, which the escaping of `QtStringMocker` ensures.
- The outputters that write marks for changed lines or nothing at all.
- User interface, database, weather and sunset plugins, and the other containers and small types of the program.
