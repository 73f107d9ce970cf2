# Parking lot exit queues and low-emission lookup, modelled in Dafny

The parking application keeps one table of cars, `cars`. Each row has an id, a
plate, a lane (`machine`; the index page shows lanes 1 to 3), a `small` flag, a `low_emission` flag and an
`exit_order`. A car with `exit_order` 0 is parked but not queued. A car with a
positive `exit_order` holds that rank in its lane's exit queue. This model covers:

- **The exit queue.** `queue_exit` puts a car at the back of its lane's queue.
  `exit_car` lets only the car ranked 1 leave, and the cars queued behind it
  move up one rank; unqueued cars keep `exit_order` 0. `remove_car` deletes a row without renumbering.
  `add_car` validates the request and inserts an unqueued row. The
  low-emission lookup runs only for a request that passes validation.
- **The listing.** The index page and `/list` sort the rows by
  `ORDER BY machine, exit_order, id`. The index page then groups them into
  lots 1, 2 and 3.
- **The low-emission lookup.** `check_low_emission` tries a headless browser
  session and then a headful one. The first attempt that does not fail
  decides the result:
  - an alert containing "조회 차량정보가 없습니다" ("no vehicle information
    found") means not low-emission;
  - any other alert, or no alert, means low-emission;
  - if every attempt fails, the answer is not low-emission.

Files and modules:

- `common.dfy` (`Common`): `Option`, `Result`, and the HTTP `Response` a
  handler answers with.
- `emission.dfy` (`Emission`): attempt outcomes, the classification and the
  loop over the two modes.
- `intake.dfy` (`Intake`): the request values `add_car` reads. These are
  Python's `str.strip()`, `int()` on a decimal string, and the `small`
  membership test.
- `sequencer.dfy` (`Sequencer`): the table as a map from id to row. Each
  handler is a function on the table. The lemmas cover the density
  invariant, the frame conditions, and the asymmetry of `remove_car`.
- `listing.dfy` (`Listing`): the listing order, inserting a row into a
  sorted listing, and grouping into lots.
- `parking.dfy` (`Parking`): the class `CarTable`. Its fields are the map of
  rows and the next id, which stands in for SQLite's `AUTOINCREMENT`. Each
  method is a handler that updates those fields in place and is proved
  equal to the corresponding `Sequencer`, `Intake` or `Listing` function.

Where the code behaves in a way one might not expect, the model follows the
code:

- The lookup does not always produce a boolean. An exception outside the
  three caught Selenium exceptions escapes `check_low_emission`. `add_car`
  catches it and stores 0. The model shows this as the `Raised` attempt
  outcome and the `Escaped` verdict.
- `add_car` accepts any integer lane that fits SQLite's 64-bit INTEGER, not
  only 1 to 3. The index page then raises `KeyError` for every request while
  such a car exists. The model shows this as `Lots` returning `None`. A lane
  outside the 64-bit range passes `int()`, but the INSERT raises
  `OverflowError` after the lookup. The handler then answers 500 and stores
  nothing.
- A plate is accepted when it is non-empty after `strip()`, and it is stored
  stripped.
- `strip()` and `int()` skip different characters. `strip()` removes
  everything `str.isspace` accepts. `int()` skips only ASCII space and
  `\t\n\v\f\r` and non-ASCII whitespace. It refuses the ASCII separators
  U+001C..U+001F. So a lane such as `"\x1c2"` makes `add_car` fail with 500.

## Model

| member | source | states |
|---|---|---|
| `Emission.Contains` | parking_system/app.py:119 | the search answers true exactly when the phrase occurs as a contiguous slice of the alert text (Python's `in`) |
| `Emission.Decide` | parking_system/app.py:113-126 | an attempt that did not fail gives `true` exactly when it saw no alert or an alert without the "no vehicle information" phrase, and escapes exactly when it raised an uncaught exception |
| `Emission.Classify` | parking_system/app.py:85-140 | an escaped exception was raised by some attempt, and a positive verdict needs some attempt that saw no alert or an alert without the "no vehicle information" phrase |
| `Emission.AttemptsMade` | parking_system/app.py:85-130 | the loop makes at least one attempt and never more than there are modes |
| `Emission.CheckLowEmission` | parking_system/app.py:85-140 | the loop over the modes (headless, then headful) returns the verdict of the first attempt that does not fail, or `false` after all fail; it counts the attempts made (at most two), including one whose browser failed to start |
| `Emission.LowEmissionFlag` | parking_system/app.py:171-175 | the stored `low` value is 0 or 1, and it is 1 exactly for a positive classification; an escaped exception stores 0 |
| `Emission.FirstDecisiveAttempt` | parking_system/app.py:113-130 | after any number of failed attempts, the first attempt that does not fail decides the verdict and is the last attempt made |
| `Emission.AllFailedIsNegative` | parking_system/app.py:128-130 | fail-closed: when every attempt fails the verdict is `false`, after every mode was tried |
| `Emission.ClassifyCharacterised` | parking_system/app.py:113-140 | without an uncaught exception the lookup always classifies, and the result is positive iff some attempt succeeded and the first one to succeed saw no alert or an alert without the "no vehicle information" phrase |
| `Emission.SecondModeNotFoundScenario` | parking_system/app.py:119-130 | a headless attempt that times out followed by a "no vehicle information" alert gives `false` after two attempts |
| `Intake.TextStart` | parking_system/app.py:164-167 | the text starts at the first non-whitespace position, and only whitespace precedes it |
| `Intake.TextEnd` | parking_system/app.py:164-167 | the text ends after the last non-whitespace character, and only whitespace follows it |
| `Intake.Trim` | parking_system/app.py:164-167 | trimming a whitespace set leaves nothing exactly for text made only of it, and otherwise leaves text that neither starts nor ends with it |
| `Intake.Strip` | parking_system/app.py:164-165 | `strip()` yields the empty plate exactly when the submitted text is all `str.isspace` whitespace; otherwise the plate neither starts nor ends with whitespace |
| `Intake.TrimKeepsSlice` | parking_system/app.py:164-167 | trimming (for `strip()` and for `int()` alike) keeps a slice of the input with only whitespace around it |
| `Intake.TrimUnpadded` | parking_system/app.py:164-167 | text that neither starts nor ends with whitespace is unchanged by trimming |
| `Intake.StripUnpadded` | parking_system/app.py:164 | text with no whitespace at either end is unchanged by `strip()` |
| `Intake.StripIdempotent` | parking_system/app.py:164 | stripping a plate twice is stripping it once |
| `Intake.DigitsRoundTrip` | parking_system/app.py:167 | reading back the decimal digits of a natural number gives that number |
| `Intake.ParseInt` | parking_system/app.py:167 | `int()` accepts a string exactly when, after skipping `int()`'s whitespace at both ends, it is one or more ASCII digits with an optional sign; the value is that of the digits, negated after a minus sign |
| `Intake.LeadingZeros` | parking_system/app.py:167 | leading zeros do not change the value of a digit string |
| `Intake.TrimSpaceAndNewline` | parking_system/app.py:167 | a leading space and a trailing newline are trimmed off text that does not itself start or end with whitespace |
| `Intake.ParsePlusDigits` | parking_system/app.py:167 | a plus sign and digits between a space and a newline read as the value of the digits |
| `Intake.ParseIntPadded` | parking_system/app.py:167 | `int()` reads n from n's digits written with surrounding whitespace, a plus sign and any number of leading zeros (`int(" +007\n") == 7`) |
| `Intake.ParseIntRoundTrip` | parking_system/app.py:167 | `int(str(n)) == n` for every integer lane number |
| `Intake.IntSkipsLessThanStrip` | parking_system/app.py:164-167 | `strip()` removes a leading U+001C but `int()` refuses it, while both skip ASCII spaces and newlines |
| `Intake.PlateField` | parking_system/app.py:164 | reading the plate fails (500) exactly when it is present but not a string; otherwise it is the stripped text, empty exactly when missing or all whitespace |
| `Intake.MachineField` | parking_system/app.py:167 | the lane is 1 when missing, the integer itself, 0 or 1 for a boolean, or `int()` of a string; it fails with 500 exactly when `int()` would raise, including for `None` and other shapes |
| `Intake.MachineTextIsNumber` | parking_system/app.py:167 | a lane sent as the decimal text of n (as a form sends it) is the same lane as n sent as a number |
| `Intake.SmallField` | parking_system/app.py:168 | the flag is 0 or 1, and 1 exactly when `small` is `True`, `1`, `'on'`, `'true'` or `'1'` |
| `Intake.ParseAdd` | parking_system/app.py:163-168 | a request is accepted exactly when its plate is a string that is not blank and its lane is readable; it then carries the stripped plate, the lane `int()` gives and a `small` flag of 0 or 1, each as its field reader gives it; a refused one is a 400 or a 500 |
| `Intake.BadRequestIffBlankPlate` | parking_system/app.py:164-166 | a request is refused with 400 exactly when the plate is missing or is whitespace only |
| `Intake.AcceptedPlateIsStripped` | parking_system/app.py:164-181 | an accepted plate came as a string and is stored stripped, so it does not start with whitespace and stripping it again changes nothing |
| `Intake.SeparatorLaneIsServerError` | parking_system/app.py:163-167 | a valid plate with the lane `"\x1c2"` fails with 500, so no row is stored |
| `Sequencer.MaxOverExists` | parking_system/app.py:209-210 | every selection of rows has a `MAX(exit_order)` for a lane (0 when no row qualifies) |
| `Sequencer.MaxOverUnique` | parking_system/app.py:209-210 | that maximum is determined by the rows it ranges over |
| `Sequencer.LaneMax` | parking_system/app.py:209-210 | the lane maximum bounds every `exit_order` in the lane, and it is either 0 or held by some car of the lane |
| `Sequencer.QueueStep` | parking_system/app.py:198-215 | `queue_exit` neither adds nor deletes rows and changes nothing but the `exit_order` of the car named |
| `Sequencer.ExitStep` | parking_system/app.py:218-233 | `exit_car` deletes at most the named row; every other row changes only in `exit_order`, which never grows |
| `Sequencer.RemoveStep` | parking_system/app.py:236-245 | `remove_car` deletes the row whatever its rank, changes no other row, and reports success |
| `Sequencer.QueueUnknownId` | parking_system/app.py:202-215 | `queue_exit` answers 404 exactly for an unknown id, and then leaves the table unchanged; for a known id it answers success, also when it changes nothing |
| `Sequencer.QueueAppends` | parking_system/app.py:208-213 | queuing an unqueued car ranks it above every car of its lane, at 1 or one past an existing rank |
| `Sequencer.QueueChangesIff` | parking_system/app.py:208-215 | `queue_exit` changes the table exactly when the car exists and is unqueued; otherwise it is a no-op |
| `Sequencer.QueueIdempotent` | parking_system/app.py:208-215 | calling `queue_exit` twice yields the same answer and table as calling it once |
| `Sequencer.ExitUnknownId` | parking_system/app.py:222-226 | `exit_car` answers 404 exactly for an unknown id, and then leaves the table unchanged |
| `Sequencer.ExitChangesIff` | parking_system/app.py:227-233 | front gate: `exit_car` changes the table iff the car's `exit_order` is 1, and it reports success for every known car |
| `Sequencer.ExitRenumbersItsLane` | parking_system/app.py:228-231 | when the front car leaves, it is gone and exactly the rows of its lane ranked above 1 drop by one. Other lanes and unqueued cars are untouched. |
| `Sequencer.DenseLaneMax` | parking_system/app.py:209-211 | in a lane whose ranks are 1..k, the maximum `exit_order` is k |
| `Sequencer.QueuePreservesDensity` | parking_system/app.py:208-213 | if a lane's ranks are 1..k, queuing an unqueued car of that lane makes them 1..k+1, and `queue_exit` leaves every other lane's ranks as they were |
| `Sequencer.ExitPreservesDensity` | parking_system/app.py:228-231 | if a lane's ranks are 1..k, the front car leaving makes them 1..k-1, and `exit_car` leaves every other lane's ranks as they were |
| `Sequencer.InsertPreservesDensity` | parking_system/app.py:179-181 | inserting an unqueued car leaves every lane's ranks 1..k as they were |
| `Sequencer.RemoveDenseIffLast` | parking_system/app.py:242 | removing a queued car keeps its lane's ranks gap-free iff it was last in the queue |
| `Sequencer.RemoveFrontStallsLane` | parking_system/app.py:228-242 | after `remove_car` on a front car, no car in that lane has rank 1, so `exit_car` is a no-op for every car of the lane |
| `Sequencer.StallPersistsUnderQueue` | parking_system/app.py:208-213 | a lane with queued cars but none ranked 1 stays so under `queue_exit`, whichever car is queued |
| `Sequencer.ExitScenario` | parking_system/app.py:228-231 | with A, B, C ranked 1, 2, 3 in one lane, A's exit leaves B at 1 and C at 2, and C cannot then leave |
| `Listing.InsertSorted` | parking_system/app.py:150 | placing a row with a new id into a listing sorted by (machine, exit_order, id) keeps it sorted and adds exactly that row |
| `Listing.ListingUnique` | parking_system/app.py:150 | the sort key has no ties (ids are unique), so any two sorted listings of the same rows are equal |
| `Listing.GroupInto` | parking_system/app.py:155-157 | the grouping loop only appends to existing lots: a successful grouping has exactly the lots it started with |
| `Listing.Lots` | parking_system/app.py:155-157 | when the index page's grouping succeeds there are exactly the lots 1, 2 and 3 |
| `Listing.GroupIntoMeaning` | parking_system/app.py:155-157 | the grouping loop fails exactly when a row's lane is not a lot, and otherwise appends to each lot exactly that lane's rows in listing order |
| `Listing.LotsMeaning` | parking_system/app.py:155-157 | the lots 1, 2, 3 are built exactly when every car is in one of those lanes, and lot m is lane m's rows in listing order |
| `Listing.LaneRowsOfSorted` | parking_system/app.py:150-157 | taking one lane out of a sorted listing keeps exactly that lane's rows, still sorted |
| `Listing.LotOrder` | parking_system/app.py:150-157 | each lot shows exactly the cars of its lane: unqueued cars first in id order, then queued cars by rank |
| `Listing.LotsFailIff` | parking_system/app.py:155-157 | the index page fails (KeyError) exactly when some car's lane is outside 1..3 |
| `Parking.CarTable.constructor` | parking_system/app.py:31-40 | a new table is empty and hands out id 1 first |
| `Parking.CarTable.AddCar` | parking_system/app.py:161-185 | a refused request changes nothing, answers 400 or 500 and makes no lookup attempt. An accepted one makes the lookup's attempts, also when its lane then fails to store. An accepted one whose lane is outside SQLite's 64-bit INTEGER answers 500 and changes nothing. Any other accepted one answers success and inserts exactly one row under a fresh id. That row holds the stripped plate and the lane, with `small` and `low_emission` as 0/1 and `exit_order` 0. |
| `Parking.OversizedLaneIsServerError` | parking_system/app.py:163-181 | the lane 2^63 passes `int()` and the validation but does not fit SQLite's INTEGER, so `add_car` answers 500 |
| `Parking.CarTable.MaxExitOrder` | parking_system/app.py:209-210 | the scan of the table returns the lane's maximum `exit_order`, 0 for a lane with no car |
| `Parking.CarTable.QueueExit` | parking_system/app.py:198-215 | the handler's answer and new table are those of `queue_exit`, and ids stay fresh |
| `Parking.CarTable.ExitCar` | parking_system/app.py:218-233 | the handler's answer and new table are those of `exit_car` (DELETE then lane-wide decrement) |
| `Parking.CarTable.RemoveCar` | parking_system/app.py:236-245 | the handler deletes the row unconditionally and reports success |
| `Parking.CarTable.ListCars` | parking_system/app.py:188-195 | the query returns every row exactly once, sorted by (machine, exit_order, id) |
| `Parking.CarTable.Index` | parking_system/app.py:145-158 | the page fails exactly when a car is outside lanes 1..3. Otherwise it has lots 1, 2, 3, and lot m holds exactly the rows of lane m, ordered by `exit_order` and then id. |

## Left out

- HTTP plumbing is not modelled: Flask routing, `jsonify`,
  `render_template`, and choosing between `request.get_json()` and
  `request.form`. A request body is a map from field name to parsed value.
- SQLite is not modelled: connections, commits, `init_db` and its `ALTER
  TABLE` migration, and database errors. The table is an in-memory map, and
  the `AUTOINCREMENT` counter is unbounded.
- The browser is not modelled: chromedriver installation, browser options,
  page-load and wait timeouts, `time.sleep(0.5)` and `driver.quit()`. Only
  each attempt's observable outcome is modelled.
- An exception raised by `chromedriver_autoinstaller.install()` before the
  loop is not a separate case. `add_car` handles it exactly as it handles a
  `Raised` attempt, by storing 0.
- The model fixes `HEADLESS` as the source does (`true`).
- Logging calls are left out.
- `parking_system/static/script.js` is browser UI and is not part of this
  model.
- Concurrency between requests is not modelled. Each handler is one atomic
  step on the table.
- Intake.ParseInt: does not accept underscores between digits or non-ASCII
  decimal digits, which Python's `int()` accepts. Such lane values are
  refused (500) in the model. The whitespace `int()` skips is modelled
  exactly. The limit of 4300 digits that Python 3.11 and later put on
  `int()` of a string is not modelled. A lane string with more than 4300
  digits, such as 1 after 4300 zeros, is refused with 500 there but read in
  the model.
- Intake.SmallField: floats are not modelled. Python's `1.0 == True` would
  make a float `1.0` count as small. Floats fall under `VOther`, which gives 0.
- Intake.MachineField: floats are not modelled. `int(2.7)` truncates to 2 in
  Python. The model refuses floats with 500.
- Parking.CarTable.RemoveCar: takes an integer id. The handler passes
  whatever `data.get('id')` holds to SQLite, where a numeric string would
  also match by type affinity and `None` matches no row.
