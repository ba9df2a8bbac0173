# Workout tracker: record model and submission gate

A Dafny model of the core of a map-based workout logger. The user clicks the
map, fills in a form, and the app records a workout, lists it, and keeps the
list in the browser's local storage. The model covers these parts:

- **Records** (`Workouts`). A workout is one immutable datatype. Its `Detail`
  is a tagged union: running carries cadence and pace, cycling carries
  elevation gain and speed. The constructors `NewRunning` and `NewCycling`
  compute the derived metric and the description exactly once.
  - Pace is `duration / distance`.
  - Speed is `distance / (duration / 60)`.
  - The description is the capitalised type, " on ", and the English month name.
- **Ids** (`WorkoutIds`). A record's id is the last ten characters of the
  decimal rendering of the millisecond clock reading.
- **Numbers** (`JsNumber`). JavaScript numbers coming from the form are
  `Finite(r) | NaN | PosInf | NegInf`. `Every` models `Array.prototype.every`.
  `Divide` models IEEE division, including division by zero.
- **Controller state** (`Tracker`).
  - The app state is the ordered `workouts` list plus the value stored under
    the `workouts` storage key.
  - The gate in `_newWorkout` decides whether a submission becomes a record.
    A rejected submission changes nothing. An accepted one appends exactly one
    record and writes the whole list to storage.
  - Lookup by id returns the first matching record in insertion order.
  - Startup restore, and `rest`, which clears storage and then reloads.

The clock readings (`Date.now()` and `new Date()`) are inputs: `Clock(now, date)`.
So are the last map click's coordinates (absent before the first click) and
the numbers unary `+` makes of the form fields. Storage is an abstract copy of the list: `Option<seq<Workout>>`,
where `None` means the key is absent.

Four behaviours of the source are kept as written:

- **Click on an unknown id.** In script.js:209-210, a click on a list item
  whose id no record has makes `find` give `undefined`. Reading
  `workout.coords` then raises a TypeError. `MoveToPopup` returns
  `LookupFailed` for that case.
- **Click before the map exists.** `_map` is only set in `_loadMap`
  (script.js:83), which runs when geolocation answers. The list is rendered
  and its click listener attached in the constructor (script.js:62-66). So a
  click on a listed workout throws at `this._map.setView` (script.js:210)
  before the position arrives, or when geolocation is refused or missing.
  `MoveToPopup` takes whether the map is loaded as an input and returns
  `MapNotLoaded` for that case.
- **Submit before any map click.** `_mapEvent` is only set in `_showForm` on
  a map click (script.js:96), but the submit listener is attached in the
  constructor (script.js:64). `this._mapEvent.latlng` is read at
  script.js:118, before the gate. So a submit before any map click throws,
  whatever the numbers are: it neither alerts nor adds. `NewWorkout` returns
  `NoMapClick` for that case and leaves the app unchanged.
- **Elevation gain.** The cycling gate (script.js:133) checks elevation gain
  for finiteness but not positivity. `CyclingGate` and `GateExamples` show
  that an elevation gain of -50 is accepted.

## Model

| member | source | states |
|---|---|---|
| JsNumber.Every | script.js:114-116 | `every` is true exactly when the predicate holds of every element, which is what `validInputs` and `allPositive` compute |
| JsNumber.Divide | script.js:38 | JavaScript division of finite numbers: finite exactly when the divisor is non-zero, and then quotient times divisor gives the dividend; 0/0 is NaN; a positive number over zero is +Infinity; positive over positive is positive |
| WorkoutIds.SliceFromEnd | script.js:13 | `slice(-k)` keeps min(k, length) characters for k > 0 and the whole string for k = 0, and what it keeps is a suffix of the string |
| WorkoutIds.ValueOfDecimal | script.js:13 | the string `Date.now() + ''` denotes the clock reading |
| WorkoutIds.IdDenotesClockModulo | script.js:13 | an id has at most ten decimal digits and denotes the clock reading modulo 10^10, so ids repeat every 10^10 ms |
| WorkoutIds.FullLengthId | script.js:13 | from a reading of 10^9 ms upward, every id has exactly ten digits |
| WorkoutIds.IdsCollideIffSameModulo | script.js:13 | two readings of at least 10^9 ms give equal ids exactly when they agree modulo 10^10, so two workouts in the same millisecond share an id |
| WorkoutIds.CloseReadingsDistinctIds | script.js:13 | readings less than 10^10 ms apart give distinct ids |
| Workouts.Capitalize | script.js:24 | a lower-case ASCII first letter becomes the matching upper-case letter, any other first character is kept, the length is kept and every later character is unchanged |
| Workouts.DescriptionShape | script.js:21-25 | a description is "Running on " or "Cycling on " followed by the month name of the creation date |
| Workouts.DescribeInjective | script.js:21-25 | two descriptions are equal exactly when type and month are equal; year and day play no part |
| Workouts.CalcPace | script.js:37-39 | pace is finite exactly when the distance is non-zero, and then pace times distance equals duration; it is positive for positive inputs |
| Workouts.CalcSpeed | script.js:51-53 | speed is finite exactly when the duration is non-zero, and then speed times duration equals 60 times distance (km/h from minutes); it is positive for positive inputs |
| Workouts.NewRunning | script.js:11-39 | a running record keeps the given id, date, coords, distance, duration and cadence, has its pace, and carries the running description of its creation month |
| Workouts.NewCycling | script.js:42-53 | a cycling record keeps the given id, date, coords, distance, duration and elevation gain, has its speed, and carries the cycling description of its creation month |
| Workouts.NewRecordsValid | script.js:28-53 | from positive distance and duration, a cycling record is valid whatever its elevation gain, and a running record is valid when its cadence is positive too |
| Tracker.RunningGate | script.js:124-129 | a running submission is accepted exactly when distance, duration and cadence are all finite and all strictly positive |
| Tracker.CyclingGate | script.js:131-136 | a cycling submission is accepted exactly when distance, duration and elevation gain are all finite and distance and duration are strictly positive |
| Tracker.GateExamples | script.js:124-136 | NaN distance, zero duration and cadence -1 each reject a running submission; a cycling submission with elevation gain -50 is accepted |
| Tracker.Build | script.js:118-137 | an accepted submission after a map click becomes a valid record of the selected type: submitted coords and numbers, the clock's id and date, and the pace or speed of its own distance and duration |
| Tracker.NewWorkout | script.js:112-144 | a submit before any map click throws, whatever the numbers; after a click, it alerts exactly when the gate rejects it; in both cases nothing changes; otherwise the list becomes the old list plus the new record, and storage holds the whole new list |
| Tracker.GetLocalStorage | script.js:222-225 | with nothing stored, the list is left as it was; otherwise the stored list replaces it; storage itself is untouched |
| Tracker.Startup | script.js:60-63 | whatever storage holds, the app starts in step with it: with nothing stored the list is empty, otherwise it is the stored list |
| Tracker.ReloadRestoresList | script.js:218-225 | restoring from what was last written gives back the same list in the same order |
| Tracker.RestForgets | script.js:231-234 | after `rest` the list is empty and nothing is stored, so a later reload brings nothing back |
| Tracker.NewWorkoutPreserves | script.js:139-140 | handling a submission keeps storage in step with the list and keeps every record valid, including a pace or speed that matches its distance and duration |
| Tracker.ReplayPreserves | script.js:139-140 | over any run of submissions, storage stays in step with the list and every record stays valid |
| Tracker.ReplayAppendsAccepted | script.js:126-140 | over any run of submissions, the list grows only at its end, by exactly the records of the submissions that followed a map click and passed the gate, in order, and by as many as there were |
| Tracker.FindIndex | script.js:209 | `find` by id gives the first index whose id matches, and gives nothing exactly when no record has the id |
| Tracker.MoveToPopup | script.js:206-216 | a click outside the list does nothing; before the map is loaded any other click throws; once it is loaded, a click on an id the list holds sets the map at zoom 13 to the coords of the first record with that id, and only then, and a click whose id no record has throws |
| Tracker.FindAfterAppend | script.js:209 | appending a record never changes an earlier match; the new record is found only for an id no earlier record has |
| WorkoutIds.Decimal | script.js:13 | `n + ''` is a non-empty digit string without a leading zero (unless n is 0), one digit long exactly when n < 10 |
| WorkoutIds.IdOf | script.js:13 | an id is the last min(10, length) characters of the rendered clock reading, all digits |
| Workouts.Describe | script.js:21-25 | a description is 11 characters of "Running on " or "Cycling on ", by type, followed by the month's English name |
| Tracker.Accepts | script.js:124-136 | an accepted submission has finite positive distance and duration, plus a finite positive cadence for running or a finite elevation gain for cycling |
| Tracker.SetLocalStorage | script.js:218-220 | writing through leaves the list alone, stores the whole list, and leaves the app in step with storage |
| Tracker.Rest | script.js:231-234 | `rest` leaves an empty list and nothing stored |
| Tracker.Find | script.js:209 | `find` gives nothing exactly when no record has the id, and otherwise the first record with that id |
| Tracker.FindDistinct | script.js:209 | with pairwise distinct ids, looking up a record's id gives that record |
| Tracker.DuplicateIdShadows | script.js:209 | when two records share an id, lookup gives an index at or before the earlier one, never the later one |

## Left out

- Leaflet map, tile layer, markers, popups and `setView` animation: a foreign library. `MoveToPopup` returns the coords and zoom it would pass to `setView`. Whether `_map` exists is the only part of the map state the model keeps.
- Geolocation: asynchronous browser API. The last map click's coords are an input, absent before the first click.
- Tracker.MoveToPopup: whether the map is loaded is an input. The model does not derive it from the geolocation callbacks, which decide it in the source.
- DOM rendering, HTML templating and `toFixed` formatting in `_renderWorkout` and `_renderWorkoutMarker`: UI output and floating-point string formatting.
- Form show/hide/toggle and the `setTimeout` display reset: UI state only.
- `JSON.stringify`/`JSON.parse` and the `localStorage` API: storage is an abstract copy of the list. Restored objects lose their class in the source, but they keep every data field. No behaviour is called on them after construction, so the copy is exact for the model. The `date` field becomes a string in JSON; nothing reads it after construction.
- Malformed stored JSON: `JSON.parse` would throw during startup. The abstract storage cannot hold malformed text.
- The clock: `Date.now()` and `new Date()` are inputs. Of the date, only year, month and day are kept, and only the month is read.
- Decimal rendering of numbers from 10^21 upward, which JavaScript writes in exponent notation: clock readings never reach that range.
- Unary `+` on form text: the parsed numbers are inputs.
- A type selector value other than "running" or "cycling": the form's select offers only these two, so `Kind` has two values. The source would push `undefined` for any other value.
- Floating-point rounding, signed zero, overflow to ±Infinity and underflow to 0: numbers are `real`. Pace and speed are exact quotients.
- JsNumber.Divide: finite for every non-zero divisor only over the reals. In IEEE doubles, a quotient such as `1e308 / 1e-308` overflows to Infinity.
- Workouts.Valid: a positive finite pace or speed holds only over the reals. In doubles, extreme inputs could make it Infinity or 0.
- `toUpperCase` beyond ASCII letters: type names are ASCII.
- `rest`: `location.reload()` is modelled as running startup again. No other part of the page reload is modelled.
