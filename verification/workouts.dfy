/** The workout records: the `Workout` base shape and its two variants,
    `Running` and `Cycling`, as one immutable tagged union. Every field is
    fixed when the record is built; the derived metric (pace or speed) and the
    description are computed exactly once, there. */
module Workouts {
  import opened JsNumber
  import WorkoutIds

  /** Month numbers as `Date.prototype.getMonth` returns them: 0 is January. */
  type MonthIndex = m: int | 0 <= m < 12

  /** The parts of a `Date` the model keeps; only the month is ever read. */
  datatype Date = Date(year: int, month: MonthIndex, day: int)

  /** Latitude and longitude of the map click. */
  datatype Coords = Coords(lat: real, lng: real)

  /** The value of the form's type selector. */
  datatype Kind = Running | Cycling

  /** The variant-specific input and the metric derived from the shared fields. */
  datatype Detail =
    | RunningDetail(cadence: real, pace: Num)
    | CyclingDetail(elevationGain: real, speed: Num)

  datatype Workout = Workout(
    id: string,
    date: Date,
    coords: Coords,
    distance: real,
    duration: real,
    detail: Detail,
    description: string)
  {
    function KindOf(): Kind {
      if detail.RunningDetail? then Running else Cycling
    }
  }

  const MonthNames: seq<string> := ["January", "February", "March", "April", "May", "June",
    "July", "August", "September", "October", "November", "December"]

  /** The record's `type` field. */
  function TypeName(k: Kind): string {
    match k
    case Running => "running"
    case Cycling => "cycling"
  }

  /** `toUpperCase` on one character, for the ASCII letters a type name is made of. */
  function UpperAscii(c: char): char {
    if 'a' <= c <= 'z' then (c as int - 32) as char else c
  }

  /** First character upper-cased, the rest unchanged. */
  function Capitalize(s: string): (r: string)
    requires |s| > 0
    ensures |r| == |s| && r[1..] == s[1..]
    ensures 'a' <= s[0] <= 'z' ==> 'A' <= r[0] <= 'Z' && r[0] as int - 'A' as int == s[0] as int - 'a' as int
    ensures !('a' <= s[0] <= 'z') ==> r[0] == s[0]
  {
    [UpperAscii(s[0])] + s[1..]
  }

  /** `_setDescription`: the capitalised type, " on ", the month's English name. */
  function Describe(k: Kind, date: Date): (r: string)
    ensures |r| > 11 && r[11..] == MonthNames[date.month]
    ensures r[..11] == if k == Running then "Running on " else "Cycling on "
  {
    Capitalize(TypeName(k)) + " on " + MonthNames[date.month]
  }

  /** Both prefixes that begin a description. */
  lemma DescriptionShape(k: Kind, date: Date)
    ensures Describe(k, date) == (if k == Running then "Running on " else "Cycling on ") + MonthNames[date.month]
  {
    var r := Describe(k, date);
    assert r == r[..11] + r[11..];
  }

  lemma MonthNamesDistinct(i: MonthIndex, j: MonthIndex)
    requires i != j
    ensures MonthNames[i] != MonthNames[j]
  {
    var a, b := MonthNames[i], MonthNames[j];
    if |a| == |b| {
      assert a[0] != b[0] || a[1] != b[1] || a[2] != b[2];
    }
  }

  /** The description determines the type and the month, and nothing else:
      records of the same type from the same month of different years, or on
      different days, get the same description. */
  lemma DescribeInjective(k1: Kind, d1: Date, k2: Kind, d2: Date)
    ensures Describe(k1, d1) == Describe(k2, d2) <==> k1 == k2 && d1.month == d2.month
  {
    var s1, s2 := Describe(k1, d1), Describe(k2, d2);
    if s1 == s2 {
      assert s1[0] == s2[0];
      DescriptionShape(k1, d1);
      DescriptionShape(k2, d2);
      assert k1 == k2;
      assert MonthNames[d1.month] == s1[11..] == s2[11..] == MonthNames[d2.month];
      if d1.month != d2.month {
        MonthNamesDistinct(d1.month, d2.month);
      }
    }
  }

  /** Running pace in minutes per kilometre, `duration / distance`: finite
      exactly when the distance is non-zero, and then it covers the distance
      in the given duration. */
  function CalcPace(distance: real, duration: real): (pace: Num)
    ensures pace.Finite? <==> distance != 0.0
    ensures pace.Finite? ==> pace.value * distance == duration
    ensures distance > 0.0 && duration > 0.0 ==> pace.Finite? && pace.value > 0.0
  {
    Divide(duration, distance)
  }

  /** Cycling speed in kilometres per hour from a duration in minutes,
      `distance / (duration / 60)`: finite exactly when the duration is
      non-zero, and then it covers the distance in the given duration. */
  function CalcSpeed(distance: real, duration: real): (speed: Num)
    ensures speed.Finite? <==> duration != 0.0
    ensures speed.Finite? ==> speed.value * duration == 60.0 * distance
    ensures distance > 0.0 && duration > 0.0 ==> speed.Finite? && speed.value > 0.0
  {
    var hours := duration / 60.0;
    var r := Divide(distance, hours);
    assert r.Finite? ==> r.value * duration == (r.value * hours) * 60.0;
    r
  }

  /** `new Running(coords, distance, duration, cadence)`, with the id and date
      fields taken from the clock readings `now` and `date`. */
  function NewRunning(now: nat, date: Date, coords: Coords, distance: real, duration: real, cadence: real): (w: Workout)
    ensures w.KindOf() == Running && w.id == WorkoutIds.IdOf(now) && w.date == date
    ensures w.coords == coords && w.distance == distance && w.duration == duration
    ensures w.detail.cadence == cadence
    ensures w.detail.pace == CalcPace(distance, duration)
    ensures w.description == Describe(Running, date)
  {
    Workout(WorkoutIds.IdOf(now), date, coords, distance, duration,
      RunningDetail(cadence, CalcPace(distance, duration)), Describe(Running, date))
  }

  /** `new Cycling(coords, distance, duration, elevationGain)`; speed is
      kilometres per hour from minutes, `distance / (duration / 60)`. */
  function NewCycling(now: nat, date: Date, coords: Coords, distance: real, duration: real, elevationGain: real): (w: Workout)
    ensures w.KindOf() == Cycling && w.id == WorkoutIds.IdOf(now) && w.date == date
    ensures w.coords == coords && w.distance == distance && w.duration == duration
    ensures w.detail.elevationGain == elevationGain
    ensures w.detail.speed == CalcSpeed(distance, duration)
    ensures w.description == Describe(Cycling, date)
  {
    Workout(WorkoutIds.IdOf(now), date, coords, distance, duration,
      CyclingDetail(elevationGain, CalcSpeed(distance, duration)), Describe(Cycling, date))
  }

  /** What every record that passed the form's checks satisfies. */
  predicate Valid(w: Workout) {
    && w.distance > 0.0 && w.duration > 0.0
    && |w.id| <= WorkoutIds.IdLength && WorkoutIds.AllDigits(w.id)
    && w.description == Describe(w.KindOf(), w.date)
    && match w.detail
       case RunningDetail(cadence, pace) =>
         cadence > 0.0 && pace == CalcPace(w.distance, w.duration) && pace.Finite? && pace.value > 0.0
       case CyclingDetail(_, speed) =>
         speed == CalcSpeed(w.distance, w.duration) && speed.Finite? && speed.value > 0.0
  }

  /** Built from positive distance and duration (and, for running, cadence),
      a record is valid; its elevation gain is not constrained. */
  lemma NewRecordsValid(now: nat, date: Date, coords: Coords, distance: real, duration: real, extra: real)
    requires distance > 0.0 && duration > 0.0
    ensures extra > 0.0 ==> Valid(NewRunning(now, date, coords, distance, duration, extra))
    ensures Valid(NewCycling(now, date, coords, distance, duration, extra))
  {
    WorkoutIds.IdDenotesClockModulo(now);
  }
}
