/**
 `parse` and `parseSegment` on already split input: the text between commas is a star, a number
 or a range, with an optional step. A piece that is not an integer numeral is `NotInteger`.
 */
module CronParse {
  import opened Options
  import Arithmetic
  import opened Calendar
  import opened Cron

  datatype Num = Int(n: int) | NotInteger
  datatype Raw = Star | One(left: Num) | Range(left: Num, right: Num)
  datatype Field = Field(raw: Raw, step: Option<Num>)
  datatype SegmentOptions = SegmentOptions(min: int, max: int)
  datatype ParseError =
    | StepNotInteger
    | StepTooSmall
    | StepTooLarge
    | ValueNotInteger
    | ValueOutOfBounds
    | RangeReversed
    | WrongSegmentCount
  datatype Result = Ok(values: set<int>) | Error(error: ParseError)
  datatype Outcome = Schedule(cron: Cron) | Failure(error: ParseError)

  const MINUTES := SegmentOptions(0, 59)
  const HOURS := SegmentOptions(0, 23)
  const DAYS := SegmentOptions(1, 31)
  const MONTHS := SegmentOptions(1, 12)
  const WEEKDAYS := SegmentOptions(0, 6)

  predicate BareStar(field: Field) {
    field.raw.Star? && field.step.None?
  }

  function StepError(step: Option<Num>, options: SegmentOptions): Option<ParseError> {
    match step
    case Some(NotInteger) => Some(StepNotInteger)
    case Some(Int(n)) =>
      if n < 1 then Some(StepTooSmall) else if n > options.max then Some(StepTooLarge) else None
    case None => None
  }

  function ValueError(value: Num, options: SegmentOptions): Option<ParseError> {
    if value.NotInteger? then Some(ValueNotInteger)
    else if value.n < options.min || value.n > options.max then Some(ValueOutOfBounds)
    else None
  }

  // The first thing wrong with a field.
  function FieldError(field: Field, options: SegmentOptions): Option<ParseError> {
    var step := StepError(field.step, options);
    if step.Some? then step
    else match field.raw
      case Star => None
      case One(left) => ValueError(left, options)
      case Range(left, right) =>
        if ValueError(left, options).Some? then ValueError(left, options)
        else if ValueError(right, options).Some? then ValueError(right, options)
        else if left.n > right.n then Some(RangeReversed)
        else None
  }

  predicate Stepped(left: int, right: int, step: int, v: int)
    requires step >= 1
  {
    left <= v <= right && (v - left) % step == 0
  }

  // What a correct field allows. A step after a single value has no effect.
  predicate Covers(field: Field, options: SegmentOptions, v: int) {
    FieldError(field, options).None? &&
    var step := if field.step.Some? then field.step.value.n else 1;
    match field.raw
    case Star => Stepped(options.min, options.max, step, v)
    case One(left) => v == left.n
    case Range(left, right) => Stepped(left.n, right.n, step, v)
  }

  predicate SomeCovers(fields: seq<Field>, options: SegmentOptions, v: int) {
    exists field :: field in fields && Covers(field, options, v)
  }

  function Interval(min: int, max: int): (s: set<int>)
    ensures forall v :: v in s <==> min <= v <= max
    ensures |s| == if max < min then 0 else max - min + 1
    decreases max - min
  {
    if max < min then {} else Interval(min, max - 1) + {max}
  }

  function Full(options: SegmentOptions): set<int> {
    Interval(options.min, options.max)
  }

  // The fields leave some value of the range out.
  ghost predicate Restricts(fields: seq<Field>, options: SegmentOptions) {
    exists v :: v in Full(options) && !SomeCovers(fields, options, v)
  }

  // ---------------------------------------------------------------------------
  // Which fields are accepted, and what they cover

  predicate StepFits(step: Option<Num>, options: SegmentOptions) {
    step.Some? ==> step.value.Int? && 1 <= step.value.n <= options.max
  }

  predicate ValueFits(value: Num, options: SegmentOptions) {
    value.Int? && value.n in Full(options)
  }

  lemma FieldIsAccepted(field: Field, options: SegmentOptions)
    ensures FieldError(field, options) == None <==>
      && StepFits(field.step, options)
      && match field.raw
         case Star => true
         case One(left) => ValueFits(left, options)
         case Range(left, right) => ValueFits(left, options) && ValueFits(right, options) && left.n <= right.n
  {
  }

  // The value an error is about: the first of a field that is no number or out of range.
  function FirstUnfit(raw: Raw, options: SegmentOptions): Option<Num> {
    match raw
    case Star => None
    case One(left) => if ValueFits(left, options) then None else Some(left)
    case Range(left, right) =>
      if !ValueFits(left, options) then Some(left) else if !ValueFits(right, options) then Some(right) else None
  }

  lemma StepErrors(step: Option<Num>, options: SegmentOptions)
    ensures var error := StepError(step, options);
      && (error == None <==> StepFits(step, options))
      && (error == Some(StepNotInteger) <==> step == Some(NotInteger))
      && (error == Some(StepTooSmall) <==> step.Some? && step.value.Int? && step.value.n <= 0)
      && (error == Some(StepTooLarge) <==>
            step.Some? && step.value.Int? && step.value.n >= 1 && step.value.n > options.max)
      && error in [None, Some(StepNotInteger), Some(StepTooSmall), Some(StepTooLarge)]
  {
  }

  lemma ValueErrors(value: Num, options: SegmentOptions)
    ensures ValueError(value, options) ==
      if value.NotInteger? then Some(ValueNotInteger)
      else if ValueFits(value, options) then None
      else Some(ValueOutOfBounds)
  {
  }

  // Every error has its own case, with steps looked at before values and values before their order.
  lemma FieldErrors(field: Field, options: SegmentOptions)
    ensures var error := FieldError(field, options);
      var step, unfit := field.step, FirstUnfit(field.raw, options);
      && (error == Some(StepNotInteger) <==> step == Some(NotInteger))
      && (error == Some(StepTooSmall) <==> step.Some? && step.value.Int? && step.value.n <= 0)
      && (error == Some(StepTooLarge) <==>
            step.Some? && step.value.Int? && step.value.n >= 1 && step.value.n > options.max)
      && (error == Some(ValueNotInteger) <==> StepFits(step, options) && unfit == Some(NotInteger))
      && (error == Some(ValueOutOfBounds) <==> StepFits(step, options) && unfit.Some? && unfit.value.Int?)
      && (error == Some(RangeReversed) <==>
            StepFits(step, options) && unfit.None? && field.raw.Range? && field.raw.left.n > field.raw.right.n)
  {
    StepErrors(field.step, options);
    match field.raw {
      case Star =>
      case One(left) => ValueErrors(left, options);
      case Range(left, right) =>
        ValueErrors(left, options);
        ValueErrors(right, options);
    }
    hide StepError, ValueError, StepFits, Full;
  }

  lemma SteppedMeans(left: int, right: int, step: int, v: int)
    requires step >= 1
    ensures Stepped(left, right, step, v) <==> exists k: nat :: v == left + step * k && v <= right
  {
    if Stepped(left, right, step, v) {
      var k := (v - left) / step;
      assert v == left + step * k;
      if k < 0 {
        Arithmetic.MulMonotone(step, k, -1);
      }
    }
    if k: nat :| v == left + step * k && v <= right {
      Arithmetic.MultipleMod(step, k);
      Arithmetic.MulMonotone(step, 0, k);
    }
  }

  // A single value covers itself whatever its step; ranges and stars cover what is reached from
  // their lower end in whole steps, everything without one.
  lemma FieldCovers(field: Field, options: SegmentOptions, v: int)
    requires FieldError(field, options) == None
    ensures var step := if field.step.None? then 1 else field.step.value.n;
      Covers(field, options, v) <==>
        match field.raw
        case Star => exists k: nat :: v == options.min + step * k && v <= options.max
        case One(left) => v == left.n
        case Range(left, right) => exists k: nat :: v == left.n + step * k && v <= right.n
    ensures field.step.None? && field.raw.Range? ==>
      (Covers(field, options, v) <==> v in Interval(field.raw.left.n, field.raw.right.n))
    ensures field.step.None? && field.raw.Star? ==> (Covers(field, options, v) <==> v in Full(options))
  {
    var step := if field.step.None? then 1 else field.step.value.n;
    match field.raw {
      case Star => SteppedMeans(options.min, options.max, step, v);
      case One(_) =>
      case Range(left, right) => SteppedMeans(left.n, right.n, step, v);
    }
  }

  // The ends of all five ranges are accepted, what lies beyond them is not.
  lemma RangeEnds()
    ensures MINUTES == SegmentOptions(0, 59) && HOURS == SegmentOptions(0, 23)
    ensures DAYS == SegmentOptions(1, 31) && MONTHS == SegmentOptions(1, 12) && WEEKDAYS == SegmentOptions(0, 6)
    ensures FieldError(Field(Range(Int(0), Int(6)), None), WEEKDAYS) == None
    ensures FieldError(Field(One(Int(7)), None), WEEKDAYS) == Some(ValueOutOfBounds)
    ensures FieldError(Field(One(Int(59)), None), MINUTES) == None
    ensures FieldError(Field(One(Int(60)), None), MINUTES) == Some(ValueOutOfBounds)
  {
  }

  // Reading has not stopped before field k: no error, no bare star, and something left uncovered.
  ghost predicate Reads(fields: seq<Field>, options: SegmentOptions, k: nat)
    requires k < |fields|
  {
    && (forall field :: field in fields[..k] ==> FieldError(field, options).None? && !BareStar(field))
    && Restricts(fields[..k], options)
  }

  // ---------------------------------------------------------------------------

  lemma {:induction false} SubsetSize<T>(s: set<T>, t: set<T>)
    requires s <= t
    ensures |s| <= |t| && (|s| == |t| <==> s == t)
  {
    assert t == s + (t - s);
  }

  // Adds every value from left up to right in steps of step.
  method AddStepped(values: set<int>, left: int, right: int, step: int) returns (r: set<int>)
    requires step >= 1
    ensures forall v :: v in r <==> v in values || Stepped(left, right, step, v)
  {
    r := values;
    var i := left;
    while i <= right
      invariant i >= left && (i - left) % step == 0
      invariant forall v :: v in r <==> v in values || (v < i && Stepped(left, right, step, v))
      decreases right - i
    {
      r := r + {i};
      forall v | i <= v < i + step
        ensures Stepped(left, right, step, v) <==> v == i && v <= right
      {
        NoneBetween(v - left, i - left, step);
      }
      Arithmetic.ShiftMod(i + step - left, step, 1);
      i := i + step;
    }
  }

  lemma NoneBetween(m: int, n: int, step: int)
    requires step >= 1 && n % step == 0 && n <= m < n + step
    ensures m % step == 0 <==> m == n
  {
    var q := n / step;
    assert m == step * q + (m - n);
    Arithmetic.DivUnique(m, step, q, m - n);
  }

  // One comma-separated field, which is not a bare star: its values, or what is wrong with it.
  method AddField(values: set<int>, field: Field, options: SegmentOptions) returns (r: Result)
    requires !BareStar(field)
    ensures FieldError(field, options) == None ==> r.Ok?
    ensures FieldError(field, options) != None ==> r == Error(FieldError(field, options).value)
    ensures r.Ok? ==> forall v :: v in r.values <==> v in values || Covers(field, options, v)
  {
    var step := 1;
    if field.step.Some? {
      if field.step.value.NotInteger? {
        return Error(StepNotInteger);
      }
      step := field.step.value.n;
      if step < 1 {
        return Error(StepTooSmall);
      }
      if step > options.max {
        return Error(StepTooLarge);
      }
    }
    if field.raw.Star? {
      var all := AddStepped(values, options.min, options.max, step);
      return Ok(all);
    }
    var left := field.raw.left;
    if left.NotInteger? {
      return Error(ValueNotInteger);
    }
    if left.n < options.min || left.n > options.max {
      return Error(ValueOutOfBounds);
    }
    if field.raw.One? {
      return Ok(values + {left.n});
    }
    var right := field.raw.right;
    if right.NotInteger? {
      return Error(ValueNotInteger);
    }
    if right.n < options.min || right.n > options.max {
      return Error(ValueOutOfBounds);
    }
    if left.n > right.n {
      return Error(RangeReversed);
    }
    var range := AddStepped(values, left.n, right.n, step);
    return Ok(range);
  }

  lemma CoversSomething(field: Field, options: SegmentOptions)
    requires FieldError(field, options).None? && options.min <= options.max
    ensures exists v :: v in Full(options) && Covers(field, options, v)
    ensures forall v :: Covers(field, options, v) ==> v in Full(options)
  {
    var v := if field.raw.Star? then options.min else field.raw.left.n;
    assert v in Full(options) && Covers(field, options, v);
  }

  lemma SomeCoversSnoc(fields: seq<Field>, options: SegmentOptions, i: nat)
    requires i < |fields|
    ensures forall v ::
      SomeCovers(fields[..i + 1], options, v) <==> SomeCovers(fields[..i], options, v) || Covers(fields[i], options, v)
  {
    assert fields[..i + 1] == fields[..i] + [fields[i]];
    forall v | Covers(fields[i], options, v)
      ensures SomeCovers(fields[..i + 1], options, v)
    {
      assert fields[i] in fields[..i + 1];
    }
    forall v | SomeCovers(fields[..i], options, v)
      ensures SomeCovers(fields[..i + 1], options, v)
    {
      var field :| field in fields[..i] && Covers(field, options, v);
      assert field in fields[..i + 1];
    }
  }

  lemma CoveredByPrefix(fields: seq<Field>, options: SegmentOptions, i: nat, v: int)
    requires i <= |fields| && SomeCovers(fields[..i], options, v)
    ensures SomeCovers(fields, options, v)
  {
    var field :| field in fields[..i] && Covers(field, options, v);
    assert field in fields;
  }

  // The error a failing parse reports, if reading gets to one.
  ghost predicate Reports(fields: seq<Field>, options: SegmentOptions, error: ParseError) {
    exists k :: 0 <= k < |fields| && Reads(fields, options, k) && FieldError(fields[k], options) == Some(error)
  }

  lemma ReportsFirst(fields: seq<Field>, options: SegmentOptions, i: nat)
    requires i < |fields| && Reads(fields, options, i) && FieldError(fields[i], options).Some?
    ensures forall e :: Reports(fields, options, e) <==> FieldError(fields[i], options) == Some(e)
  {
    forall k | i < k < |fields|
      ensures !Reads(fields, options, k)
    {
      assert fields[i] in fields[..k];
    }
    forall k | 0 <= k < i
      ensures FieldError(fields[k], options).None?
    {
      assert fields[k] in fields[..i];
    }
  }

  lemma BareStarStops(fields: seq<Field>, options: SegmentOptions, i: nat, k: nat)
    requires i < k < |fields| && BareStar(fields[i])
    ensures !Reads(fields, options, k)
  {
    assert fields[i] in fields[..k];
  }

  lemma FullCoverStops(fields: seq<Field>, options: SegmentOptions, i: nat, k: nat)
    requires i <= k < |fields|
    requires forall v :: v in Full(options) ==> SomeCovers(fields[..i], options, v)
    ensures !Reads(fields, options, k)
  {
    assert fields[..k][..i] == fields[..i];
    forall v | v in Full(options)
      ensures SomeCovers(fields[..k], options, v)
    {
      CoveredByPrefix(fields[..k], options, i, v);
    }
  }

  // Nothing is reported when the first i fields are fine and reading stops there.
  lemma ReportsNothing(fields: seq<Field>, options: SegmentOptions, i: nat)
    requires i <= |fields|
    requires forall field :: field in fields[..i] ==> FieldError(field, options).None?
    requires
      || i == |fields|
      || BareStar(fields[i])
      || forall v :: v in Full(options) ==> SomeCovers(fields[..i], options, v)
    ensures forall e :: !Reports(fields, options, e)
  {
    forall k | 0 <= k < |fields|
      ensures Reads(fields, options, k) ==> FieldError(fields[k], options).None?
    {
      if k < i {
        assert fields[k] in fields[..i];
      } else if !BareStar(fields[i]) {
        FullCoverStops(fields, options, i, k);
      } else if k > i {
        BareStarStops(fields, options, i, k);
      }
    }
  }

  lemma StillReads(fields: seq<Field>, options: SegmentOptions, i: nat, values: set<int>)
    requires i < |fields| && values < Full(options)
    requires forall v :: v in values <==> SomeCovers(fields[..i], options, v)
    requires forall field :: field in fields[..i] ==> FieldError(field, options).None? && !BareStar(field)
    ensures Reads(fields, options, i)
  {
    var v :| v in Full(options) && v !in values;
  }

  lemma LeavesOut(fields: seq<Field>, options: SegmentOptions, values: set<int>)
    requires values < Full(options)
    requires forall v :: v in values <==> SomeCovers(fields, options, v)
    ensures Restricts(fields, options)
  {
    var v :| v in Full(options) && v !in values;
  }

  lemma NothingCovers(fields: seq<Field>, options: SegmentOptions)
    ensures forall v :: !SomeCovers(fields[..0], options, v)
  {
  }

  // Success allows a value of the range exactly when some field covers it, and is a proper subset
  // that is empty exactly when nothing is left out; failure reports the first error met before
  // reading stops.
  ghost predicate IsSegment(fields: seq<Field>, options: SegmentOptions, r: Result) {
    && (r.Ok? ==> forall v :: v in Full(options) ==> (Allows(r.values, v) <==> SomeCovers(fields, options, v)))
    && (r.Ok? ==> r.values < Full(options) && (r.values != {} <==> Restricts(fields, options)))
    && forall e :: r == Error(e) <==> Reports(fields, options, e)
  }

  method ParseSegment(fields: seq<Field>, options: SegmentOptions) returns (r: Result)
    requires |fields| > 0 && options.min <= options.max
    ensures IsSegment(fields, options, r)
  {
    hide Reads, Reports, Interval, FieldError, Covers, SomeCovers;
    var capacity := options.max - options.min + 1;
    var values: set<int> := {};
    NothingCovers(fields, options);
    var i := 0;
    while i < |fields|
      invariant 0 <= i <= |fields|
      invariant forall v :: v in values <==> SomeCovers(fields[..i], options, v)
      invariant values < Full(options) && (i > 0 ==> values != {})
      invariant forall field :: field in fields[..i] ==> FieldError(field, options).None? && !BareStar(field)
    {
      var field := fields[i];
      if BareStar(field) {
        BareStarCoversAll(fields, options, i);
        ReportsNothing(fields, options, i);
        return Ok({});
      }
      StillReads(fields, options, i, values);
      var added := AddField(values, field, options);
      if added.Error? {
        ReportsFirst(fields, options, i);
        return added;
      }
      SomeCoversSnoc(fields, options, i);
      CoversSomething(field, options);
      assert fields[..i + 1] == fields[..i] + [field];
      values := added.values;
      i := i + 1;
      SubsetSize(values, Full(options));
      if |values| >= capacity {
        forall v | v in Full(options)
          ensures SomeCovers(fields, options, v)
        {
          CoveredByPrefix(fields, options, i, v);
        }
        ReportsNothing(fields, options, i);
        return Ok({});
      }
    }
    assert fields[..i] == fields;
    ReportsNothing(fields, options, i);
    LeavesOut(fields, options, values);
    r := Ok(values);
  }

  lemma BareStarCoversAll(fields: seq<Field>, options: SegmentOptions, i: nat)
    requires i < |fields| && BareStar(fields[i])
    ensures forall v :: v in Full(options) ==> SomeCovers(fields, options, v)
  {
    forall v | v in Full(options)
      ensures SomeCovers(fields, options, v)
    {
      assert fields[i] in fields && Covers(fields[i], options, v);
    }
  }

  // ---------------------------------------------------------------------------
  // Whole expressions

  // What an expression of five segments says about a date: two restricted day segments accept
  // either, otherwise every segment has to cover its part.
  ghost predicate Describes(segments: seq<seq<Field>>, date: DateTime)
    requires |segments| == 5 && 0 <= date.month < 12
  {
    && SomeCovers(segments[0], MINUTES, date.minute)
    && SomeCovers(segments[1], HOURS, date.hour)
    && SomeCovers(segments[3], MONTHS, date.month + 1)
    && var day, weekday := SomeCovers(segments[2], DAYS, date.day), SomeCovers(segments[4], WEEKDAYS, Weekday(date));
       if Restricts(segments[2], DAYS) && Restricts(segments[4], WEEKDAYS) then day || weekday else day && weekday
  }

  function OptionsOf(k: nat): SegmentOptions
    requires k < 5
  {
    [MINUTES, HOURS, DAYS, MONTHS, WEEKDAYS][k]
  }

  // The first segment with an error has this one.
  ghost predicate FirstReported(segments: seq<seq<Field>>, error: ParseError)
    requires |segments| == 5
  {
    exists k: nat :: k < 5 && Reports(segments[k], OptionsOf(k), error)
      && forall j: nat, e :: j < k ==> !Reports(segments[j], OptionsOf(j), e)
  }

  lemma FirstError(segments: seq<seq<Field>>, results: seq<Result>, k: nat)
    requires |segments| == 5 && k < |results| <= 5
    requires forall j: nat :: j <= k ==> IsSegment(segments[j], OptionsOf(j), results[j])
    requires forall j: nat :: j < k ==> results[j].Ok?
    ensures results[k].Error? ==> forall e :: results[k].error == e <==> FirstReported(segments, e)
    ensures k == 4 && results[k].Ok? ==> forall e :: !FirstReported(segments, e)
  {
    hide Reports, Restricts, Interval, SomeCovers, OptionsOf;
    forall j: nat, e | j < k
      ensures !Reports(segments[j], OptionsOf(j), e)
    {
    }
  }

  // Each field of the schedule is what its segment gave.
  ghost predicate IsSchedule(segments: seq<seq<Field>>, cron: Cron)
    requires |segments| == 5
  {
    && IsSegment(segments[0], MINUTES, Ok(cron.minutes))
    && IsSegment(segments[1], HOURS, Ok(cron.hours))
    && IsSegment(segments[2], DAYS, Ok(cron.days))
    && IsSegment(segments[3], MONTHS, Ok(cron.months))
    && IsSegment(segments[4], WEEKDAYS, Ok(cron.weekdays))
  }

  lemma SegmentBounds(fields: seq<Field>, options: SegmentOptions, values: set<int>)
    requires IsSegment(fields, options, Ok(values))
    ensures forall v :: v in values ==> options.min <= v <= options.max
  {
  }

  lemma ScheduleWithinBounds(segments: seq<seq<Field>>, cron: Cron)
    requires |segments| == 5 && IsSchedule(segments, cron)
    ensures WithinBounds(cron)
  {
    hide IsSegment;
    SegmentBounds(segments[0], MINUTES, cron.minutes);
    SegmentBounds(segments[1], HOURS, cron.hours);
    SegmentBounds(segments[2], DAYS, cron.days);
    SegmentBounds(segments[3], MONTHS, cron.months);
    SegmentBounds(segments[4], WEEKDAYS, cron.weekdays);
  }

  lemma SegmentAllows(fields: seq<Field>, options: SegmentOptions, values: set<int>, v: int)
    requires IsSegment(fields, options, Ok(values)) && options.min <= v <= options.max
    ensures Allows(values, v) <==> SomeCovers(fields, options, v)
    ensures |values| == 0 <==> !Restricts(fields, options)
  {
    hide SomeCovers, Restricts, Reports;
    assert v in Full(options);
  }

  lemma ScheduleMeans(segments: seq<seq<Field>>, cron: Cron, date: DateTime)
    requires |segments| == 5 && IsSchedule(segments, cron) && Valid(date)
    ensures Match(cron, date) <==> Describes(segments, date)
  {
    hide IsSegment, SomeCovers, Restricts;
    SegmentAllows(segments[0], MINUTES, cron.minutes, date.minute);
    SegmentAllows(segments[1], HOURS, cron.hours, date.hour);
    SegmentAllows(segments[2], DAYS, cron.days, date.day);
    SegmentAllows(segments[3], MONTHS, cron.months, date.month + 1);
    SegmentAllows(segments[4], WEEKDAYS, cron.weekdays, Weekday(date));
  }

  lemma ScheduleMatches(segments: seq<seq<Field>>, cron: Cron)
    requires |segments| == 5 && IsSchedule(segments, cron)
    ensures forall date: DateTime :: Valid(date) ==> (Match(cron, date) <==> Describes(segments, date))
  {
    hide IsSchedule, Match, Describes;
    forall date: DateTime | Valid(date)
      ensures Match(cron, date) <==> Describes(segments, date)
    {
      ScheduleMeans(segments, cron, date);
    }
  }

  // The first error, or else the schedule made of all five.
  function All(minutes: Result, hours: Result, days: Result, months: Result, weekdays: Result): Outcome {
    if minutes.Error? then Failure(minutes.error)
    else if hours.Error? then Failure(hours.error)
    else if days.Error? then Failure(days.error)
    else if months.Error? then Failure(months.error)
    else if weekdays.Error? then Failure(weekdays.error)
    else Schedule(Cron(minutes.values, hours.values, days.values, months.values, weekdays.values))
  }

  lemma AllReportsFirst(segments: seq<seq<Field>>, m: Result, h: Result, d: Result, n: Result, w: Result)
    requires |segments| == 5
    requires IsSegment(segments[0], MINUTES, m) && IsSegment(segments[1], HOURS, h)
    requires IsSegment(segments[2], DAYS, d) && IsSegment(segments[3], MONTHS, n)
    requires IsSegment(segments[4], WEEKDAYS, w)
    ensures var r := All(m, h, d, n, w);
      (forall e :: r == Failure(e) <==> FirstReported(segments, e)) && (r.Schedule? ==> IsSchedule(segments, r.cron))
  {
    hide IsSegment, FirstReported;
    var results := [m, h, d, n, w];
    var k := if m.Error? then 0 else if h.Error? then 1 else if d.Error? then 2 else if n.Error? then 3 else 4;
    FirstError(segments, results, k);
  }

  // Success gives a schedule within bounds that matches exactly the dates the text describes.
  method Parse(segments: seq<seq<Field>>) returns (r: Outcome)
    requires forall segment :: segment in segments ==> |segment| > 0
    ensures |segments| != 5 ==> r == Failure(WrongSegmentCount)
    ensures |segments| == 5 ==> forall e :: r == Failure(e) <==> FirstReported(segments, e)
    ensures r.Schedule? ==> |segments| == 5 && WithinBounds(r.cron)
    ensures r.Schedule? ==>
      forall date: DateTime :: Valid(date) ==> (Match(r.cron, date) <==> Describes(segments, date))
  {
    if |segments| != 5 {
      return Failure(WrongSegmentCount);
    }
    hide *;
    var minutes := ParseSegment(segments[0], MINUTES);
    var hours := ParseSegment(segments[1], HOURS);
    var days := ParseSegment(segments[2], DAYS);
    var months := ParseSegment(segments[3], MONTHS);
    var weekdays := ParseSegment(segments[4], WEEKDAYS);
    AllReportsFirst(segments, minutes, hours, days, months, weekdays);
    r := All(minutes, hours, days, months, weekdays);
    if r.Schedule? {
      ScheduleWithinBounds(segments, r.cron);
      ScheduleMatches(segments, r.cron);
    }
  }

  // ---------------------------------------------------------------------------
  // The documented example: at 04:00 on every day of the month from 8 through 14

  lemma OnlyField(field: Field, options: SegmentOptions, v: int)
    ensures SomeCovers([field], options, v) <==> Covers(field, options, v)
  {
    assert field in [field];
  }

  lemma NoErrorReported(field: Field, options: SegmentOptions)
    requires FieldError(field, options) == None
    ensures forall e :: !Reports([field], options, e)
  {
    forall e
      ensures !Reports([field], options, e)
    {
      assert forall k :: 0 <= k < |[field]| ==> [field][k] == field;
    }
  }

  lemma StarLeavesNothingOut(options: SegmentOptions)
    ensures !Restricts([Field(Star, None)], options)
  {
    forall v | v in Full(options)
      ensures SomeCovers([Field(Star, None)], options, v)
    {
      FieldCovers(Field(Star, None), options, v);
      OnlyField(Field(Star, None), options, v);
    }
  }

  function Example(): seq<seq<Field>> {
    var star := Field(Star, None);
    [[Field(One(Int(0)), None)], [Field(One(Int(4)), None)], [Field(Range(Int(8), Int(14)), None)], [star], [star]]
  }

  lemma ExampleSucceeds()
    ensures forall e :: !FirstReported(Example(), e)
  {
    hide Reports;
    NoErrorReported(Example()[0][0], MINUTES);
    NoErrorReported(Example()[1][0], HOURS);
    NoErrorReported(Example()[2][0], DAYS);
    NoErrorReported(Example()[3][0], MONTHS);
    NoErrorReported(Example()[4][0], WEEKDAYS);
  }

  lemma ExampleDescribes(date: DateTime)
    requires Valid(date)
    ensures Describes(Example(), date) <==> date.minute == 0 && date.hour == 4 && 8 <= date.day <= 14
  {
    var star := Field(Star, None);
    OnlyField(Example()[0][0], MINUTES, date.minute);
    OnlyField(Example()[1][0], HOURS, date.hour);
    OnlyField(Example()[2][0], DAYS, date.day);
    OnlyField(star, MONTHS, date.month + 1);
    OnlyField(star, WEEKDAYS, Weekday(date));
    FieldCovers(Example()[0][0], MINUTES, date.minute);
    FieldCovers(Example()[1][0], HOURS, date.hour);
    FieldCovers(Example()[2][0], DAYS, date.day);
    FieldCovers(star, MONTHS, date.month + 1);
    FieldCovers(star, WEEKDAYS, Weekday(date));
    StarLeavesNothingOut(WEEKDAYS);
    hide Covers, SomeCovers, Restricts;
  }
}
