/** The controller's core: the list of workouts, its write-through copy in
    browser storage, the gate a form submission passes before it becomes a
    record, the lookup behind a click on the list, and startup restore.
    Map, DOM and geolocation are outside the model. */
module Tracker {
  import opened Wrappers
  import opened JsNumber
  import opened Workouts
  import WorkoutIds

  /** Zoom level `_mapZoom` the map is set to when a listed workout is clicked. */
  const MapZoom: int := 13

  /** The workout list and the value stored under the `workouts` key of local
      storage; `None` when the key is absent. Serialisation is abstract: the
      stored value is a copy of the list. */
  datatype App = App(workouts: seq<Workout>, storage: Option<seq<Workout>>)

  /** A form submission: the selected type, the last map click (`None` while
      `_mapEvent` is still unset, before any click on the map), and the
      numbers unary `+` made of the four inputs. */
  datatype Submission = Submission(
    kind: Kind,
    coords: Option<Coords>,
    distance: Num,
    duration: Num,
    cadence: Num,
    elevationGain: Num)

  /** The clock readings the new record takes its id and date from. */
  datatype Clock = Clock(now: nat, date: Date)

  /** What a submit does. `NoMapClick` is the TypeError thrown when
      `_mapEvent` is read before any map click. */
  datatype Outcome = NoMapClick | Alerted | Added(workout: Workout)

  /** What a click on the workout list does. `MapNotLoaded` and `LookupFailed`
      are the two TypeErrors the handler can throw. */
  datatype ClickOutcome = Ignored | SetView(coords: Coords, zoom: int) | MapNotLoaded | LookupFailed

  /** `validInputs`: every input is a finite number. */
  function ValidInputs(inputs: seq<Num>): bool {
    Every(inputs, IsFinite)
  }

  /** `allPositive`: every input is greater than zero. */
  function AllPositive(inputs: seq<Num>): bool {
    Every(inputs, GreaterThanZero)
  }

  /** The gate of `_newWorkout`: running checks all three numbers for
      finiteness and positivity; cycling checks elevation gain for
      finiteness only. */
  predicate Accepts(s: Submission)
    ensures Accepts(s) ==> s.distance.Finite? && s.duration.Finite? && s.distance.value > 0.0 && s.duration.value > 0.0
    ensures Accepts(s) ==> if s.kind == Running then s.cadence.Finite? && s.cadence.value > 0.0 else s.elevationGain.Finite?
  {
    match s.kind
    case Running =>
      var xs := [s.distance, s.duration, s.cadence];
      assert ValidInputs(xs) ==> IsFinite(xs[0]) && IsFinite(xs[1]) && IsFinite(xs[2]);
      assert AllPositive(xs) ==> GreaterThanZero(xs[0]) && GreaterThanZero(xs[1]) && GreaterThanZero(xs[2]);
      ValidInputs(xs) && AllPositive(xs)
    case Cycling =>
      var xs, ys := [s.distance, s.duration, s.elevationGain], [s.distance, s.duration];
      assert ValidInputs(xs) ==> IsFinite(xs[0]) && IsFinite(xs[1]) && IsFinite(xs[2]);
      assert AllPositive(ys) ==> GreaterThanZero(ys[0]) && GreaterThanZero(ys[1]);
      ValidInputs(xs) && AllPositive(ys)
  }

  /** A running submission passes exactly when distance, duration and cadence
      are all finite and all strictly positive. */
  lemma RunningGate(s: Submission)
    requires s.kind == Running
    ensures Accepts(s) <==>
      && s.distance.Finite? && s.duration.Finite? && s.cadence.Finite?
      && s.distance.value > 0.0 && s.duration.value > 0.0 && s.cadence.value > 0.0
  {
    var xs := [s.distance, s.duration, s.cadence];
    assert IsFinite(xs[0]) && IsFinite(xs[1]) && IsFinite(xs[2]) <==> ValidInputs(xs);
    assert GreaterThanZero(xs[0]) && GreaterThanZero(xs[1]) && GreaterThanZero(xs[2]) <==> AllPositive(xs);
  }

  /** A cycling submission passes exactly when distance, duration and
      elevation gain are all finite and distance and duration are strictly
      positive; elevation gain may be zero or negative. */
  lemma CyclingGate(s: Submission)
    requires s.kind == Cycling
    ensures Accepts(s) <==>
      && s.distance.Finite? && s.duration.Finite? && s.elevationGain.Finite?
      && s.distance.value > 0.0 && s.duration.value > 0.0
  {
    var xs := [s.distance, s.duration, s.elevationGain];
    assert IsFinite(xs[0]) && IsFinite(xs[1]) && IsFinite(xs[2]) <==> ValidInputs(xs);
    var ys := [s.distance, s.duration];
    assert GreaterThanZero(ys[0]) && GreaterThanZero(ys[1]) <==> AllPositive(ys);
  }

  /** The submission becomes a record: a map click came first and the gate passes. */
  predicate BecomesRecord(s: Submission) {
    s.coords.Some? && Accepts(s)
  }

  /** The record an accepted submission becomes. */
  function Build(s: Submission, clock: Clock): (w: Workout)
    requires s.coords.Some? && Accepts(s)
    ensures Valid(w) && w.KindOf() == s.kind && w.coords == s.coords.value
    ensures w.id == WorkoutIds.IdOf(clock.now) && w.date == clock.date
    ensures Finite(w.distance) == s.distance && Finite(w.duration) == s.duration
    ensures s.kind == Running ==> Finite(w.detail.cadence) == s.cadence
    ensures s.kind == Cycling ==> Finite(w.detail.elevationGain) == s.elevationGain
  {
    match s.kind
    case Running =>
      RunningGate(s);
      NewRecordsValid(clock.now, clock.date, s.coords.value, s.distance.value, s.duration.value, s.cadence.value);
      NewRunning(clock.now, clock.date, s.coords.value, s.distance.value, s.duration.value, s.cadence.value)
    case Cycling =>
      CyclingGate(s);
      NewRecordsValid(clock.now, clock.date, s.coords.value, s.distance.value, s.duration.value, s.elevationGain.value);
      NewCycling(clock.now, clock.date, s.coords.value, s.distance.value, s.duration.value, s.elevationGain.value)
  }

  /** `_setLocalStorage`: the stored value becomes the whole current list. */
  function SetLocalStorage(app: App): (r: App)
    ensures r.workouts == app.workouts && r.storage == Some(app.workouts)
    ensures Synced(r)
  {
    app.(storage := Some(app.workouts))
  }

  /** `_newWorkout`: reading `this._mapEvent.latlng` comes before the gate,
      so a submit before any map click throws and changes nothing; a rejected
      submission raises the alert and returns before anything changes; an
      accepted one appends exactly one record and writes the whole list
      through to storage. */
  function NewWorkout(app: App, s: Submission, clock: Clock): (r: (App, Outcome))
    ensures r.1.NoMapClick? <==> s.coords.None?
    ensures r.1.Alerted? <==> s.coords.Some? && !Accepts(s)
    ensures r.1.Added? <==> BecomesRecord(s)
    ensures !r.1.Added? ==> r.0 == app
    ensures r.1.Added? ==> r.1.workout == Build(s, clock)
    ensures r.1.Added? ==> r.0.workouts == app.workouts + [r.1.workout]
    ensures r.1.Added? ==> r.0.storage == Some(r.0.workouts)
  {
    if s.coords.None? then (app, NoMapClick)
    else if !Accepts(s) then (app, Alerted)
    else
      var w := Build(s, clock);
      (SetLocalStorage(app.(workouts := app.workouts + [w])), Added(w))
  }

  /** `_getLocalStorage`: with no stored value the list is left as it is;
      otherwise the stored list replaces it wholesale. */
  function GetLocalStorage(app: App): (r: App)
    ensures r.storage == app.storage
    ensures app.storage.None? ==> r.workouts == app.workouts
    ensures app.storage.Some? ==> r.workouts == app.storage.value
  {
    match app.storage
    case None => app
    case Some(data) => app.(workouts := data)
  }

  /** The `App` constructor's part in the model: an empty list, then restore
      from whatever storage holds. */
  function Startup(storage: Option<seq<Workout>>): (r: App)
    ensures r.storage == storage && Synced(r)
    ensures storage.None? ==> r.workouts == []
    ensures storage.Some? ==> r.workouts == storage.value
  {
    GetLocalStorage(App([], storage))
  }

  /** `rest`: the stored value is removed and the page reloads, which runs
      startup again on empty storage. */
  function Rest(app: App): (r: App)
    ensures r.workouts == [] && r.storage.None?
  {
    Startup(None)
  }

  /** The stored value mirrors the list: either nothing has been stored and
      the list is empty, or the stored value is the whole list. */
  predicate Synced(app: App) {
    match app.storage
    case None => app.workouts == []
    case Some(data) => data == app.workouts
  }

  predicate AllValid(ws: seq<Workout>) {
    forall i :: 0 <= i < |ws| ==> Valid(ws[i])
  }

  /** Reloading a synchronised app restores the same list, in the same order. */
  lemma ReloadRestoresList(app: App)
    requires Synced(app)
    ensures Startup(app.storage).workouts == app.workouts
    ensures Startup(app.storage) == app
  {
  }

  /** After `rest` the list is empty, nothing is stored, and a further reload
      brings nothing back. */
  lemma RestForgets(app: App)
    ensures Startup(Rest(app).storage).workouts == []
  {
  }

  /** A submission keeps the list and its stored copy in step, and keeps every
      record valid. */
  lemma NewWorkoutPreserves(app: App, s: Submission, clock: Clock)
    requires Synced(app) && AllValid(app.workouts)
    ensures Synced(NewWorkout(app, s, clock).0)
    ensures AllValid(NewWorkout(app, s, clock).0.workouts)
  {
    var r := NewWorkout(app, s, clock);
    if r.1.Added? {
      AllValidAppend(app.workouts, r.1.workout);
    }
  }

  lemma AllValidAppend(ws: seq<Workout>, w: Workout)
    requires AllValid(ws) && Valid(w)
    ensures AllValid(ws + [w])
  {
    assert forall i :: 0 <= i < |ws| ==> (ws + [w])[i] == ws[i];
  }

  /** What one submission adds to the list: its record if it becomes one, nothing otherwise. */
  function AddedBy(s: Submission, c: Clock): seq<Workout> {
    if BecomesRecord(s) then [Build(s, c)] else []
  }

  lemma NewWorkoutAdds(app: App, s: Submission, c: Clock)
    ensures NewWorkout(app, s, c).0.workouts == app.workouts + AddedBy(s, c)
  {
    if !BecomesRecord(s) {
      assert app.workouts + [] == app.workouts;
    }
  }

  /** The records a run of submissions adds, in order: one per submission that becomes a record. */
  function AcceptedRecords(subs: seq<(Submission, Clock)>): seq<Workout> {
    if |subs| == 0 then []
    else
      AddedBy(subs[0].0, subs[0].1) + AcceptedRecords(subs[1..])
  }

  function CountAccepted(subs: seq<(Submission, Clock)>): nat {
    if |subs| == 0 then 0 else (if BecomesRecord(subs[0].0) then 1 else 0) + CountAccepted(subs[1..])
  }

  /** Submissions handled one after another, as the form's submit events arrive. */
  function Replay(app: App, subs: seq<(Submission, Clock)>): App
    decreases |subs|
  {
    if |subs| == 0 then app else Replay(NewWorkout(app, subs[0].0, subs[0].1).0, subs[1..])
  }

  /** Over any run of submissions the list stays in step with storage and
      every record in it stays valid. */
  lemma {:induction false} ReplayPreserves(app: App, subs: seq<(Submission, Clock)>)
    requires Synced(app) && AllValid(app.workouts)
    ensures Synced(Replay(app, subs)) && AllValid(Replay(app, subs).workouts)
    decreases |subs|
  {
    if |subs| > 0 {
      NewWorkoutPreserves(app, subs[0].0, subs[0].1);
      ReplayPreserves(NewWorkout(app, subs[0].0, subs[0].1).0, subs[1..]);
    }
  }

  /** Over any run of submissions the list only grows at its end, by exactly
      the records of the submissions that become records, in order. */
  lemma {:induction false} ReplayAppendsAccepted(app: App, subs: seq<(Submission, Clock)>)
    ensures Replay(app, subs).workouts == app.workouts + AcceptedRecords(subs)
    ensures |Replay(app, subs).workouts| == |app.workouts| + CountAccepted(subs)
    decreases |subs|
  {
    AcceptedLength(subs);
    if |subs| == 0 {
      assert app.workouts + [] == app.workouts;
    } else {
      var (s, c) := subs[0];
      var next := NewWorkout(app, s, c).0;
      ReplayAppendsAccepted(next, subs[1..]);
      NewWorkoutAdds(app, s, c);
      var added, rest := AddedBy(s, c), AcceptedRecords(subs[1..]);
      assert AcceptedRecords(subs) == added + rest;
      ConcatAssoc(app.workouts, added, rest);
    }
  }

  lemma ConcatAssoc<T>(a: seq<T>, b: seq<T>, c: seq<T>)
    ensures a + (b + c) == (a + b) + c
  {
  }

  lemma {:induction false} AcceptedLength(subs: seq<(Submission, Clock)>)
    ensures |AcceptedRecords(subs)| == CountAccepted(subs)
    decreases |subs|
  {
    if |subs| > 0 {
      AcceptedLength(subs[1..]);
      assert |AddedBy(subs[0].0, subs[0].1)| == if BecomesRecord(subs[0].0) then 1 else 0;
    }
  }

  /** `Array.prototype.find` by id, as the index of the first record whose id
      matches. */
  function FindIndex(ws: seq<Workout>, id: string): (r: Option<nat>)
    ensures r.None? <==> forall i :: 0 <= i < |ws| ==> ws[i].id != id
    ensures r.Some? ==> r.value < |ws| && ws[r.value].id == id
    ensures r.Some? ==> forall j :: 0 <= j < r.value ==> ws[j].id != id
  {
    if |ws| == 0 then None
    else if ws[0].id == id then Some(0)
    else
      match FindIndex(ws[1..], id)
      case None => None
      case Some(i) => Some(i + 1)
  }

  /** Record `i` is the first one whose id is `id`. */
  predicate FirstWithId(ws: seq<Workout>, id: string, i: int) {
    0 <= i < |ws| && ws[i].id == id && forall j :: 0 <= j < i ==> ws[j].id != id
  }

  /** The record `find` returns, or `None` for JavaScript's `undefined`. */
  function Find(ws: seq<Workout>, id: string): (r: Option<Workout>)
    ensures r.None? <==> forall i :: 0 <= i < |ws| ==> ws[i].id != id
    ensures r.Some? ==> exists i :: FirstWithId(ws, id, i) && ws[i] == r.value
  {
    match FindIndex(ws, id)
    case None => None
    case Some(i) => Some(ws[i])
  }

  /** `moveToPopup`. `mapLoaded` says whether `_loadMap` has run: until the
      position arrives, or when geolocation is refused or missing, `_map` is
      `undefined`. A click outside any listed workout does nothing. Otherwise
      `find` runs; then, with no map, `this._map.setView` throws before its
      arguments are read; with a map, a click whose id no record has throws
      when `coords` is read from `undefined`, and a click on a record's id
      centres the map on the first record with that id at zoom 13. */
  function MoveToPopup(ws: seq<Workout>, clicked: Option<string>, mapLoaded: bool): (r: ClickOutcome)
    ensures clicked.None? ==> r == Ignored
    ensures clicked.Some? && !mapLoaded ==> r == MapNotLoaded
    ensures clicked.Some? && mapLoaded ==>
      (r.SetView? <==> exists i :: 0 <= i < |ws| && ws[i].id == clicked.value)
    ensures clicked.Some? && mapLoaded ==>
      (r.LookupFailed? <==> forall i :: 0 <= i < |ws| ==> ws[i].id != clicked.value)
    ensures r.SetView? ==> clicked.Some? && mapLoaded && r.zoom == MapZoom
    ensures r.SetView? ==> exists i :: FirstWithId(ws, clicked.value, i) && ws[i].coords == r.coords
  {
    match clicked
    case None => Ignored
    case Some(id) =>
      var found := Find(ws, id);
      if !mapLoaded then MapNotLoaded
      else
        match found
        case None => LookupFailed
        case Some(w) => SetView(w.coords, MapZoom)
  }

  /** Appending a record never changes what an earlier match finds; only an
      id with no earlier match can find the new record. */
  lemma {:induction false} FindAfterAppend(ws: seq<Workout>, w: Workout, id: string)
    ensures Find(ws + [w], id) ==
      if Find(ws, id).Some? then Find(ws, id) else if w.id == id then Some(w) else None
    decreases |ws|
  {
    if |ws| > 0 {
      assert (ws + [w])[1..] == ws[1..] + [w];
      FindAfterAppend(ws[1..], w, id);
    }
  }

  /** With pairwise distinct ids, looking up a record's id finds that record. */
  lemma FindDistinct(ws: seq<Workout>, k: nat)
    requires k < |ws|
    requires forall i, j :: 0 <= i < j < |ws| ==> ws[i].id != ws[j].id
    ensures Find(ws, ws[k].id) == Some(ws[k])
  {
  }

  /** When two records share an id, clicking the later one's list item finds
      an earlier record: `find` never reaches the later one. */
  lemma DuplicateIdShadows(ws: seq<Workout>, i: nat, j: nat)
    requires i < j < |ws| && ws[i].id == ws[j].id
    ensures FindIndex(ws, ws[j].id).Some? && FindIndex(ws, ws[j].id).value <= i
  {
  }

  /** The concrete cases the form must reject or accept. */
  lemma GateExamples(c: Coords)
    ensures !Accepts(Submission(Running, Some(c), NaN, Finite(20.0), Finite(170.0), NaN))
    ensures !Accepts(Submission(Running, Some(c), Finite(5.0), Finite(0.0), Finite(170.0), NaN))
    ensures !Accepts(Submission(Running, Some(c), Finite(5.0), Finite(20.0), Finite(-1.0), NaN))
    ensures Accepts(Submission(Cycling, Some(c), Finite(5.0), Finite(20.0), NaN, Finite(-50.0)))
  {
    RunningGate(Submission(Running, Some(c), NaN, Finite(20.0), Finite(170.0), NaN));
    RunningGate(Submission(Running, Some(c), Finite(5.0), Finite(0.0), Finite(170.0), NaN));
    RunningGate(Submission(Running, Some(c), Finite(5.0), Finite(20.0), Finite(-1.0), NaN));
    CyclingGate(Submission(Cycling, Some(c), Finite(5.0), Finite(20.0), NaN, Finite(-50.0)));
  }
}
