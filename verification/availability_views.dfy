/** The availability pages (availability/views.py): the date range a worker
    fills in, the per-day write of a fill submission, the delete permission
    rule and the manager/worker split of the home page. */
module AvailabilityViews {
  import opened Base
  import opened UserModels
  import opened AvailabilityModels

  // ------------------------------------------------------------ date ranges

  /** `daterange(start_date, end_date)`: every day from the start to the end,
      both included, in increasing order; nothing when the end is earlier. */
  function DateRange(s: Day, e: Day): (r: seq<Day>)
    ensures |r| == if e < s then 0 else e - s + 1
    ensures forall i :: 0 <= i < |r| ==> r[i] == s + i
    decreases e - s
  {
    if e < s then [] else DateRange(s, e - 1) + [e]
  }

  /** A day is listed exactly when it lies between the two ends, and no day is
      listed twice. */
  lemma DateRangeMembers(s: Day, e: Day)
    ensures forall d :: d in DateRange(s, e) <==> s <= d <= e
    ensures NoDuplicates(DateRange(s, e))
  {
    var r := DateRange(s, e);
    forall d | s <= d <= e
      ensures d in r
    {
      assert r[d - s] == d;
    }
  }

  /** `get_default_week_range`: the Monday on or before today, and the Sunday
      six days later. */
  function DefaultWeekRange(today: Day): (r: (Day, Day))
    ensures Weekday(r.0) == 0
    ensures r.0 <= today <= r.1 && r.1 == r.0 + 6
  {
    var start := today - Weekday(today);
    assert start - 1 == 7 * ((today - 1) / 7);
    (start, start + 6)
  }

  /** The default week is the only Monday-to-Sunday week that contains today. */
  lemma DefaultWeekUnique(today: Day, monday: Day)
    requires Weekday(monday) == 0 && monday <= today <= monday + 6
    ensures monday == DefaultWeekRange(today).0
  {
    var start := DefaultWeekRange(today).0;
    var a := (monday - 1) / 7;
    var b := (start - 1) / 7;
    assert monday - 1 == 7 * a;
    assert start - 1 == 7 * b;
    assert -7 < 7 * (a - b) < 7;
    assert a == b;
  }

  /** `FillRangeSetting.objects.first()`: the model declares no ordering, so
      Django orders by primary key and returns the setting with the smallest
      id; `None` for an empty table. */
  function FirstSetting(settings: seq<FillRangeSetting>): (r: Option<FillRangeSetting>)
    ensures r.None? <==> |settings| == 0
    ensures r.Some? ==> r.value in settings
    ensures r.Some? ==> forall k :: 0 <= k < |settings| ==> r.value.id <= settings[k].id
  {
    if |settings| == 0 then None
    else
      var rest := FirstSetting(settings[1..]);
      assert forall k :: 1 <= k < |settings| ==> settings[k] == settings[1..][k - 1];
      if rest.Some? && rest.value.id < settings[0].id then rest else Some(settings[0])
  }

  /** The range `fill_availability` works on: that of the setting with the
      smallest id when one exists, otherwise the current week. */
  function FillRange(settings: seq<FillRangeSetting>, today: Day): (r: (Day, Day))
    ensures |settings| > 0 ==>
              exists k :: && 0 <= k < |settings|
                           && r == (settings[k].startDate, settings[k].endDate)
                           && forall j :: 0 <= j < |settings| ==> settings[k].id <= settings[j].id
    ensures |settings| == 0 ==> Weekday(r.0) == 0 && r.0 <= today <= r.1 == r.0 + 6
  {
    match FirstSetting(settings)
    case Some(s) => (s.startDate, s.endDate)
    case None => DefaultWeekRange(today)
  }

  // ------------------------------------------------------ fill submission

  const YES: string := "yes"

  /** A posted time as `obj.save()` sees it. The view stores the raw string,
      and `TimeField.to_python` converts it on save: a missing key is `None`
      and stored as NULL, a well-formed "HH:MM" becomes a time, and anything
      else, the empty string included, raises `ValidationError`. */
  datatype PostedTime = Missing | Parsed(time: Time) | Unparsable

  /** The column value a savable posted time becomes. */
  function StoredTime(p: PostedTime): (r: Option<Time>)
    ensures r.Some? <==> p.Parsed?
    ensures p.Parsed? ==> r.value == p.time
  {
    if p.Parsed? then Some(p.time) else None
  }

  /** What the POST carries for one day: `avail-<day>`, `start-<day>` and
      `end-<day>`. */
  datatype DayForm = DayForm(avail: Option<string>, start: PostedTime, end: PostedTime)

  function FormFor(form: map<Day, DayForm>, d: Day): DayForm {
    if d in form then form[d] else DayForm(None, Missing, Missing)
  }

  /** `obj.save()` goes through: only the "yes" branch copies the posted
      strings into the record, so only there can a bad time make it raise. */
  predicate Savable(f: DayForm) {
    f.avail == Some(YES) ==> f.start != Unparsable && f.end != Unparsable
  }

  /** A record holds what the day's form asked for: available with the
      submitted times after "yes", otherwise unavailable with no times. */
  predicate Agrees(a: Availability, f: DayForm) {
    && (a.available <==> f.avail == Some(YES))
    && (a.available ==> a.start == StoredTime(f.start) && a.end == StoredTime(f.end))
    && (!a.available ==> a.start == None && a.end == None)
  }

  /** The set/clear branch applied to the day's record before `obj.save()`. */
  function Apply(a: Availability, f: DayForm): (r: Availability)
    ensures Agrees(r, f)
    ensures r.id == a.id && r.employee == a.employee && r.date == a.date
  {
    if f.avail == Some(YES) then a.(available := true, start := StoredTime(f.start), end := StoredTime(f.end))
    else a.(available := false, start := None, end := None)
  }

  predicate IsRowOf(a: Availability, e: nat, d: Day) {
    a.employee == e && a.date == d
  }

  /** How many records the employee has on that day. */
  function CountRows(rows: seq<Availability>, e: nat, d: Day): (n: nat)
    ensures n <= |rows|
    ensures n == 0 <==> forall k :: 0 <= k < |rows| ==> !IsRowOf(rows[k], e, d)
  {
    if |rows| == 0 then 0
    else
      var n := CountRows(rows[..|rows| - 1], e, d);
      assert forall k :: 0 <= k < |rows| - 1 ==> rows[k] == rows[..|rows| - 1][k];
      n + if IsRowOf(rows[|rows| - 1], e, d) then 1 else 0
  }

  lemma CountAppend(rows: seq<Availability>, x: Availability, e: nat, d: Day)
    ensures CountRows(rows + [x], e, d) == CountRows(rows, e, d) + if IsRowOf(x, e, d) then 1 else 0
  {
    assert (rows + [x])[..|rows|] == rows;
  }

  lemma {:induction false} CountSameShape(a: seq<Availability>, b: seq<Availability>, e: nat, d: Day)
    requires |a| == |b|
    requires forall k :: 0 <= k < |a| ==> (IsRowOf(a[k], e, d) <==> IsRowOf(b[k], e, d))
    ensures CountRows(a, e, d) == CountRows(b, e, d)
  {
    if |a| > 0 {
      CountSameShape(a[..|a| - 1], b[..|b| - 1], e, d);
    }
  }

  /** The table after one turn of the loop, and whether `obj.save()` was
      reached and went through. */
  datatype DayStep = DayStep(rows: seq<Availability>, saved: bool)

  /** One turn of the loop: `get_or_create(employee, date)` then set or clear
      and save. With two or more records that day `get_or_create` raises
      `MultipleObjectsReturned` and nothing changes. Otherwise a missing record
      is created with the defaults, and that creation is kept even when the
      save then raises `ValidationError` on an unparsable time. */
  function FillDay(rows: seq<Availability>, e: nat, d: Day, f: DayForm): (r: DayStep)
    ensures !r.saved <==> CountRows(rows, e, d) > 1 || !Savable(f)
    ensures CountRows(rows, e, d) > 1 ==> r.rows == rows
    ensures CountRows(rows, e, d) <= 1 ==> |r.rows| == |rows| + (if CountRows(rows, e, d) == 0 then 1 else 0)
    ensures |r.rows| >= |rows|
    ensures forall k :: 0 <= k < |rows| ==>
              r.rows[k] == if r.saved && IsRowOf(rows[k], e, d) then Apply(rows[k], f) else rows[k]
    ensures forall k :: |rows| <= k < |r.rows| ==>
              && IsRowOf(r.rows[k], e, d)
              && (r.saved ==> Agrees(r.rows[k], f))
              && (!r.saved ==> r.rows[k] == NewAvailability(r.rows[k].id, e, d))
  {
    var n := CountRows(rows, e, d);
    if n > 1 then DayStep(rows, false)
    else if n == 0 then
      var created := NewAvailability(FreshId(AvailabilityIds(rows)), e, d);
      if Savable(f) then DayStep(rows + [Apply(created, f)], true)
      else DayStep(rows + [created], false)
    else if !Savable(f) then DayStep(rows, false)
    else
      DayStep(seq(|rows|, k requires 0 <= k < |rows| =>
                    if IsRowOf(rows[k], e, d) then Apply(rows[k], f) else rows[k]), true)
  }

  /** After one turn that passes `get_or_create`, whether or not the save
      goes through, the employee has exactly one record that day, and the
      count for every other day is what it was. */
  lemma FillDayCounts(rows: seq<Availability>, e: nat, d: Day, f: DayForm, d': Day)
    requires CountRows(rows, e, d) <= 1
    ensures CountRows(FillDay(rows, e, d, f).rows, e, d) == 1
    ensures d' != d ==> CountRows(FillDay(rows, e, d, f).rows, e, d') == CountRows(rows, e, d')
  {
    var r := FillDay(rows, e, d, f).rows;
    if CountRows(rows, e, d) == 0 {
      assert r == rows + [r[|rows|]];
      CountAppend(rows, r[|rows|], e, d);
      CountAppend(rows, r[|rows|], e, d');
    } else {
      CountSameShape(rows, r, e, d);
      CountSameShape(rows, r, e, d');
    }
  }

  /** What the loop over the range leaves behind: the table, and the day at
      which `get_or_create` or `save()` raised, if one did. Days before that
      one have already been saved: each query commits on its own. */
  datatype FillResult = FillResult(rows: seq<Availability>, failedAt: Option<Day>)

  /** The loop over `days`, in order, stopping at the first day whose turn
      raises. */
  function FillDays(rows: seq<Availability>, e: nat, days: seq<Day>, form: map<Day, DayForm>): (r: FillResult)
    ensures |r.rows| >= |rows|
    ensures r.failedAt.Some? ==> r.failedAt.value in days
    ensures |days| == 0 ==> r == FillResult(rows, None)
    decreases |days|
  {
    if |days| == 0 then FillResult(rows, None)
    else
      var p := FillDays(rows, e, days[..|days| - 1], form);
      var d := days[|days| - 1];
      if p.failedAt.Some? then p
      else
        var step := FillDay(p.rows, e, d, FormFor(form, d));
        FillResult(step.rows, if step.saved then None else Some(d))
  }

  /** The loop touches only the employee's records on the listed days: every
      other record keeps its place and contents, every touched record keeps
      its id, and every added record belongs to the employee and a listed day. */
  lemma {:induction false} FillDaysFrame(rows: seq<Availability>, e: nat, days: seq<Day>, form: map<Day, DayForm>)
    ensures var r := FillDays(rows, e, days, form).rows;
      && (forall k :: 0 <= k < |rows| ==>
            r[k].id == rows[k].id && r[k].employee == rows[k].employee && r[k].date == rows[k].date)
      && (forall k :: 0 <= k < |rows| && !(rows[k].employee == e && rows[k].date in days) ==> r[k] == rows[k])
      && (forall k :: |rows| <= k < |r| ==> r[k].employee == e && r[k].date in days)
    decreases |days|
  {
    if |days| > 0 {
      var prefix := days[..|days| - 1];
      FillDaysFrame(rows, e, prefix, form);
      assert forall x :: x in prefix ==> x in days;
    }
  }

  /** Days outside the list keep their record count. */
  lemma {:induction false} FillDaysOtherCounts(rows: seq<Availability>, e: nat, days: seq<Day>, form: map<Day, DayForm>, d: Day)
    requires d !in days
    ensures CountRows(FillDays(rows, e, days, form).rows, e, d) == CountRows(rows, e, d)
    decreases |days|
  {
    if |days| > 0 {
      var prefix := days[..|days| - 1];
      var last := days[|days| - 1];
      FillDaysOtherCounts(rows, e, prefix, form, d);
      var p := FillDays(rows, e, prefix, form);
      if p.failedAt.None? && CountRows(p.rows, e, last) <= 1 {
        FillDayCounts(p.rows, e, last, FormFor(form, last), d);
      }
    }
  }

  /** With distinct days, the loop completes exactly when the employee had at
      most one record on each listed day and every "yes" day posted savable
      times; when it stops, it names a day where one of the two fails. */
  lemma {:induction false} FillDaysCompletes(rows: seq<Availability>, e: nat, days: seq<Day>, form: map<Day, DayForm>)
    requires NoDuplicates(days)
    ensures var r := FillDays(rows, e, days, form);
      && (r.failedAt.None? <==> forall d :: d in days ==> CountRows(rows, e, d) <= 1 && Savable(FormFor(form, d)))
      && (r.failedAt.Some? ==>
            && r.failedAt.value in days
            && (CountRows(rows, e, r.failedAt.value) > 1 || !Savable(FormFor(form, r.failedAt.value))))
    decreases |days|
  {
    if |days| > 0 {
      var prefix := days[..|days| - 1];
      var last := days[|days| - 1];
      assert days == prefix + [last];
      assert last !in prefix;
      FillDaysCompletes(rows, e, prefix, form);
      FillDaysOtherCounts(rows, e, prefix, form, last);
      var p := FillDays(rows, e, prefix, form);
      var r := FillDays(rows, e, days, form);
      if p.failedAt.Some? {
        assert r == p;
        assert p.failedAt.value in days;
      } else if CountRows(p.rows, e, last) > 1 || !Savable(FormFor(form, last)) {
        assert r.failedAt == Some(last);
      } else {
        assert r.failedAt.None?;
        assert forall d :: d in days ==> d in prefix || d == last;
      }
    }
  }

  /** After a completed loop the employee has exactly one record on every
      listed day, and it holds what that day's form asked for. */
  lemma {:induction false} FillDaysWrites(rows: seq<Availability>, e: nat, days: seq<Day>, form: map<Day, DayForm>)
    ensures var r := FillDays(rows, e, days, form);
      r.failedAt.None? ==>
        && (forall d :: d in days ==> CountRows(r.rows, e, d) == 1)
        && (forall k :: 0 <= k < |r.rows| && r.rows[k].employee == e && r.rows[k].date in days ==>
              Agrees(r.rows[k], FormFor(form, r.rows[k].date)))
    decreases |days|
  {
    if |days| > 0 {
      var prefix := days[..|days| - 1];
      var last := days[|days| - 1];
      assert days == prefix + [last];
      var p := FillDays(rows, e, prefix, form);
      FillDaysWrites(rows, e, prefix, form);
      var r := FillDays(rows, e, days, form);
      if r.failedAt.None? {
        assert p.failedAt.None? && CountRows(p.rows, e, last) <= 1 && FillDay(p.rows, e, last, FormFor(form, last)).saved;
        forall d | d in days
          ensures CountRows(r.rows, e, d) == 1
        {
          FillDayCounts(p.rows, e, last, FormFor(form, last), d);
          if d != last { assert d in prefix; }
        }
        forall k | 0 <= k < |r.rows| && r.rows[k].employee == e && r.rows[k].date in days
          ensures Agrees(r.rows[k], FormFor(form, r.rows[k].date))
        {
          if k < |p.rows| && !IsRowOf(p.rows[k], e, last) {
            assert r.rows[k] == p.rows[k];
            assert r.rows[k].date in prefix;
          }
        }
      }
    }
  }

  /** Once the loop has stopped, further days change nothing: the request
      ends at the first raise. */
  lemma {:induction false} StopIsFinal(rows: seq<Availability>, e: nat, days: seq<Day>, more: seq<Day>, form: map<Day, DayForm>)
    requires FillDays(rows, e, days, form).failedAt.Some?
    ensures FillDays(rows, e, days + more, form) == FillDays(rows, e, days, form)
    decreases |more|
  {
    if |more| == 0 {
      assert days + more == days;
    } else {
      var m := more[..|more| - 1];
      StopIsFinal(rows, e, days, m, form);
      assert (days + more)[..|days + more| - 1] == days + m;
    }
  }

  /** The position of a listed day. */
  function DayIndex(days: seq<Day>, d: Day): (i: nat)
    requires d in days
    ensures i < |days| && days[i] == d
    ensures d !in days[..i]
  {
    if days[0] == d then 0
    else
      var i := DayIndex(days[1..], d);
      assert days[1..][..i] == days[1..i + 1];
      assert days[..i + 1] == [days[0]] + days[1..i + 1];
      i + 1
  }

  /** A listed day's position is unique when no day repeats. */
  lemma DayIndexUnique(days: seq<Day>, i: nat, d: Day)
    requires NoDuplicates(days) && i < |days| && days[i] == d
    ensures DayIndex(days, d) == i
  {
    var j := DayIndex(days, d);
    assert days[j] == days[i];
  }

  /** A prefix of a prefix is the shorter prefix. */
  lemma PrefixOfPrefix(days: seq<Day>, n: nat, i: nat)
    requires i <= n <= |days|
    ensures days[..n][..i] == days[..i]
  {
  }

  /** A property of prefix lengths that fails at 0 and holds at `n` first
      holds at some `i + 1` with `i < n`. */
  lemma {:induction false} FirstCrossing(holds: nat -> bool, n: nat) returns (i: nat)
    requires !holds(0) && holds(n)
    ensures i < n && !holds(i) && holds(i + 1)
    decreases n
  {
    if holds(n - 1) {
      i := FirstCrossing(holds, n - 1);
    } else {
      i := n - 1;
    }
  }

  /** A loop that stops has a first stopping prefix: the days before
      position `i` run without a raise, and adding the day at `i` stops. */
  lemma FirstStop(rows: seq<Availability>, e: nat, days: seq<Day>, form: map<Day, DayForm>)
    returns (i: nat)
    requires FillDays(rows, e, days, form).failedAt.Some?
    ensures i < |days|
    ensures FillDays(rows, e, days[..i], form).failedAt.None?
    ensures FillDays(rows, e, days[..i + 1], form).failedAt.Some?
  {
    var stops := (k: nat) => if k <= |days| then FillDays(rows, e, days[..k], form).failedAt.Some? else false;
    assert days[..0] == [] && days[..|days|] == days;
    assert !stops(0) && stops(|days|);
    i := FirstCrossing(stops, |days|);
    assert !stops(i) && stops(i + 1);
  }

  /** The state a stop leaves: at a position `i` of the day it names, the
      loop over the days before ran without a raise, and the state is the
      one after that day's turn. */
  lemma StopAt(rows: seq<Availability>, e: nat, days: seq<Day>, form: map<Day, DayForm>)
    returns (i: nat)
    requires FillDays(rows, e, days, form).failedAt.Some?
    ensures var r := FillDays(rows, e, days, form);
      && i < |days| && days[i] == r.failedAt.value
      && FillDays(rows, e, days[..i], form).failedAt.None?
      && r == FillDays(rows, e, days[..i + 1], form)
  {
    i := FirstStop(rows, e, days, form);
    var upto := days[..i + 1];
    PrefixOfPrefix(days, i + 1, i);
    assert upto[..|upto| - 1] == days[..i];
    assert FillDays(rows, e, upto, form).failedAt == Some(days[i]);
    StopIsFinal(rows, e, upto, days[i + 1..], form);
    assert upto + days[i + 1..] == days;
  }

  /** With no repeated day, a stop is at the named day's only position: the
      days before it ran without a raise, and its turn raised. */
  lemma StopAtIndex(rows: seq<Availability>, e: nat, days: seq<Day>, form: map<Day, DayForm>)
    requires NoDuplicates(days)
    requires FillDays(rows, e, days, form).failedAt.Some?
    ensures var r := FillDays(rows, e, days, form);
      var i := DayIndex(days, r.failedAt.value);
      && FillDays(rows, e, days[..i], form).failedAt.None?
      && r == FillDays(rows, e, days[..i + 1], form)
  {
    var i := StopAt(rows, e, days, form);
    DayIndexUnique(days, i, FillDays(rows, e, days, form).failedAt.value);
  }

  /** A turn that raises leaves every other day's records as they were. */
  lemma FailingTurnKeeps(q: seq<Availability>, e: nat, d: Day, f: DayForm, x: Day)
    requires !FillDay(q, e, d, f).saved && x != d
    ensures CountRows(FillDay(q, e, d, f).rows, e, x) == CountRows(q, e, x)
    ensures forall k :: 0 <= k < |FillDay(q, e, d, f).rows| && FillDay(q, e, d, f).rows[k].date == x ==>
              k < |q| && FillDay(q, e, d, f).rows[k] == q[k]
  {
    if CountRows(q, e, d) <= 1 {
      FillDayCounts(q, e, d, f, x);
    }
  }

  lemma NoDuplicatesPrefix(days: seq<Day>, i: nat)
    requires NoDuplicates(days) && i <= |days|
    ensures NoDuplicates(days[..i])
  {
    var before := days[..i];
    forall a, b | 0 <= a < b < |before| ensures before[a] != before[b] {
      assert before[a] == days[a] && before[b] == days[b];
    }
  }

  /** The days before a stop had at most one record and a savable form. */
  lemma StopIsFirst(rows: seq<Availability>, e: nat, days: seq<Day>, form: map<Day, DayForm>)
    requires NoDuplicates(days)
    requires FillDays(rows, e, days, form).failedAt.Some?
    ensures var i := DayIndex(days, FillDays(rows, e, days, form).failedAt.value);
      forall j :: 0 <= j < i ==> CountRows(rows, e, days[j]) <= 1 && Savable(FormFor(form, days[j]))
  {
    var i := DayIndex(days, FillDays(rows, e, days, form).failedAt.value);
    StopAtIndex(rows, e, days, form);
    NoDuplicatesPrefix(days, i);
    FillDaysCompletes(rows, e, days[..i], form);
    forall j | 0 <= j < i
      ensures CountRows(rows, e, days[j]) <= 1 && Savable(FormFor(form, days[j]))
    {
      assert days[j] == days[..i][j];
    }
  }

  /** A turn that raises keeps what earlier turns wrote. */
  lemma FailingTurnKeepsWritten(q: seq<Availability>, e: nat, d: Day, f: DayForm, before: seq<Day>, form: map<Day, DayForm>)
    requires !FillDay(q, e, d, f).saved && d !in before
    requires forall x :: x in before ==> CountRows(q, e, x) == 1
    requires forall k :: 0 <= k < |q| && q[k].employee == e && q[k].date in before ==>
               Agrees(q[k], FormFor(form, q[k].date))
    ensures var r := FillDay(q, e, d, f).rows;
      && (forall x :: x in before ==> CountRows(r, e, x) == 1)
      && (forall k :: 0 <= k < |r| && r[k].employee == e && r[k].date in before ==>
            Agrees(r[k], FormFor(form, r[k].date)))
  {
    var r := FillDay(q, e, d, f).rows;
    forall x | x in before
      ensures CountRows(r, e, x) == 1
    {
      FailingTurnKeeps(q, e, d, f, x);
    }
    forall k | 0 <= k < |r| && r[k].employee == e && r[k].date in before
      ensures Agrees(r[k], FormFor(form, r[k].date))
    {
      FailingTurnKeeps(q, e, d, f, r[k].date);
    }
  }

  /** The days before a stop were written: each has one record of the
      employee, holding its form's values. */
  lemma StopKeepsWritten(rows: seq<Availability>, e: nat, days: seq<Day>, form: map<Day, DayForm>)
    requires NoDuplicates(days)
    requires FillDays(rows, e, days, form).failedAt.Some?
    ensures var r := FillDays(rows, e, days, form);
      var i := DayIndex(days, r.failedAt.value);
      && (forall x :: x in days[..i] ==> CountRows(r.rows, e, x) == 1)
      && (forall k :: 0 <= k < |r.rows| && r.rows[k].employee == e && r.rows[k].date in days[..i] ==>
            Agrees(r.rows[k], FormFor(form, r.rows[k].date)))
  {
    var r := FillDays(rows, e, days, form);
    var i := DayIndex(days, r.failedAt.value);
    StopAtIndex(rows, e, days, form);
    var before := days[..i];
    var d := days[i];
    var upto := days[..i + 1];
    assert upto[..|upto| - 1] == before && upto[|upto| - 1] == d;
    NoDuplicatesPrefix(days, i);
    var q := FillDays(rows, e, before, form);
    var step := FillDay(q.rows, e, d, FormFor(form, d));
    assert FillDays(rows, e, upto, form) == FillResult(step.rows, if step.saved then None else Some(d));
    FillDaysWrites(rows, e, before, form);
    FailingTurnKeepsWritten(q.rows, e, d, FormFor(form, d), before, form);
  }

  /** When the loop stops, it stops at the first listed day whose turn
      raises: the days before it had at most one record and a savable form,
      were written and hold their form's values, and nothing after the
      failing day was touched. */
  lemma FillDaysStop(rows: seq<Availability>, e: nat, days: seq<Day>, form: map<Day, DayForm>)
    requires NoDuplicates(days)
    ensures var r := FillDays(rows, e, days, form);
      r.failedAt.Some? ==>
        var i := DayIndex(days, r.failedAt.value);
        && (forall j :: 0 <= j < i ==> CountRows(rows, e, days[j]) <= 1 && Savable(FormFor(form, days[j])))
        && (forall x :: x in days[..i] ==> CountRows(r.rows, e, x) == 1)
        && (forall k :: 0 <= k < |r.rows| && r.rows[k].employee == e && r.rows[k].date in days[..i] ==>
              Agrees(r.rows[k], FormFor(form, r.rows[k].date)))
        && (forall k :: 0 <= k < |rows| && !(rows[k].employee == e && rows[k].date in days[..i + 1]) ==> r.rows[k] == rows[k])
        && (forall k :: |rows| <= k < |r.rows| ==> r.rows[k].employee == e && r.rows[k].date in days[..i + 1])
  {
    var r := FillDays(rows, e, days, form);
    if r.failedAt.Some? {
      var i := DayIndex(days, r.failedAt.value);
      StopAtIndex(rows, e, days, form);
      StopIsFirst(rows, e, days, form);
      StopKeepsWritten(rows, e, days, form);
      FillDaysFrame(rows, e, days[..i + 1], form);
    }
  }

  /** Each day from `s` up to `f` had at most one record of the employee and
      a form that `save()` accepts. */
  predicate PassedBefore(rows: seq<Availability>, e: nat, s: Day, f: Day, form: map<Day, DayForm>) {
    forall d :: s <= d < f ==> CountRows(rows, e, d) <= 1 && Savable(FormFor(form, d))
  }

  /** Each day from `s` up to `f` has one record of the employee, holding
      its form's values. */
  predicate WrittenBefore(after: seq<Availability>, e: nat, s: Day, f: Day, form: map<Day, DayForm>) {
    && (forall d :: s <= d < f ==> CountRows(after, e, d) == 1)
    && (forall k :: 0 <= k < |after| && after[k].employee == e && s <= after[k].date < f ==>
          Agrees(after[k], FormFor(form, after[k].date)))
  }

  /** The employee's records after `f` are as they were, and no record was
      added after `f`. */
  predicate UntouchedAfter(rows: seq<Availability>, e: nat, f: Day, after: seq<Availability>)
    requires |after| >= |rows|
  {
    && (forall k :: 0 <= k < |rows| && rows[k].employee == e && f < rows[k].date ==> after[k] == rows[k])
    && (forall k :: |rows| <= k < |after| ==> after[k].date <= f)
  }

  lemma RangeStopPassed(rows: seq<Availability>, e: nat, s: Day, t: Day, form: map<Day, DayForm>)
    requires FillDays(rows, e, DateRange(s, t), form).failedAt.Some?
    ensures PassedBefore(rows, e, s, FillDays(rows, e, DateRange(s, t), form).failedAt.value, form)
  {
    var days := DateRange(s, t);
    var f := FillDays(rows, e, days, form).failedAt.value;
    DateRangeMembers(s, t);
    StopIsFirst(rows, e, days, form);
    assert DayIndex(days, f) == f - s;
    forall d | s <= d < f
      ensures CountRows(rows, e, d) <= 1 && Savable(FormFor(form, d))
    {
      assert days[d - s] == d;
    }
  }

  lemma RangeStopWritten(rows: seq<Availability>, e: nat, s: Day, t: Day, form: map<Day, DayForm>)
    requires FillDays(rows, e, DateRange(s, t), form).failedAt.Some?
    ensures var r := FillDays(rows, e, DateRange(s, t), form);
      WrittenBefore(r.rows, e, s, r.failedAt.value, form)
  {
    var days := DateRange(s, t);
    var f := FillDays(rows, e, days, form).failedAt.value;
    DateRangeMembers(s, t);
    StopKeepsWritten(rows, e, days, form);
    var i := DayIndex(days, f);
    assert i == f - s;
    DateRangePrefix(s, t, i);
  }

  lemma RangeStopUntouched(rows: seq<Availability>, e: nat, s: Day, t: Day, form: map<Day, DayForm>)
    requires FillDays(rows, e, DateRange(s, t), form).failedAt.Some?
    ensures var r := FillDays(rows, e, DateRange(s, t), form);
      UntouchedAfter(rows, e, r.failedAt.value, r.rows)
  {
    var days := DateRange(s, t);
    var f := FillDays(rows, e, days, form).failedAt.value;
    DateRangeMembers(s, t);
    StopAtIndex(rows, e, days, form);
    var i := DayIndex(days, f);
    assert i == f - s;
    FillDaysFrame(rows, e, days[..i + 1], form);
    DateRangePrefix(s, t, i + 1);
  }

  /** The loop over the days from `s` to `t`: on a stop at day `f`, every day
      from `s` up to `f` passed its turn and holds its form's values, and
      nothing of the employee after `f` was touched. */
  lemma FillRangeStop(rows: seq<Availability>, e: nat, s: Day, t: Day, form: map<Day, DayForm>)
    ensures var r := FillDays(rows, e, DateRange(s, t), form);
      r.failedAt.Some? ==>
        && PassedBefore(rows, e, s, r.failedAt.value, form)
        && WrittenBefore(r.rows, e, s, r.failedAt.value, form)
        && UntouchedAfter(rows, e, r.failedAt.value, r.rows)
  {
    if FillDays(rows, e, DateRange(s, t), form).failedAt.Some? {
      RangeStopPassed(rows, e, s, t, form);
      RangeStopWritten(rows, e, s, t, form);
      RangeStopUntouched(rows, e, s, t, form);
    }
  }

  /** The first `i` days of a range are those from `s` up to `s + i`. */
  lemma DateRangePrefix(s: Day, t: Day, i: nat)
    requires i <= |DateRange(s, t)|
    ensures forall d :: d in DateRange(s, t)[..i] <==> s <= d < s + i
    ensures forall j :: 0 <= j < i ==> DateRange(s, t)[j] == s + j
  {
    var p := DateRange(s, t)[..i];
    forall d | s <= d < s + i ensures d in p {
      assert p[d - s] == d;
    }
  }

  /** `FillDaysCompletes` over the days from `s` to `t`. */
  lemma FillRangeCompletes(rows: seq<Availability>, e: nat, s: Day, t: Day, form: map<Day, DayForm>)
    ensures var r := FillDays(rows, e, DateRange(s, t), form);
      && (r.failedAt.None? <==> forall d :: s <= d <= t ==> CountRows(rows, e, d) <= 1 && Savable(FormFor(form, d)))
      && (r.failedAt.Some? ==>
            && s <= r.failedAt.value <= t
            && (CountRows(rows, e, r.failedAt.value) > 1 || !Savable(FormFor(form, r.failedAt.value))))
  {
    DateRangeMembers(s, t);
    FillDaysCompletes(rows, e, DateRange(s, t), form);
  }

  /** `FillDaysWrites` over the days from `s` to `t`. */
  lemma FillRangeWrites(rows: seq<Availability>, e: nat, s: Day, t: Day, form: map<Day, DayForm>)
    ensures var r := FillDays(rows, e, DateRange(s, t), form);
      && (r.failedAt.None? ==> forall d :: s <= d <= t ==> CountRows(r.rows, e, d) == 1)
      && (r.failedAt.None? ==> forall k :: 0 <= k < |r.rows| && r.rows[k].employee == e && s <= r.rows[k].date <= t ==>
            Agrees(r.rows[k], FormFor(form, r.rows[k].date)))
  {
    DateRangeMembers(s, t);
    FillDaysWrites(rows, e, DateRange(s, t), form);
  }

  /** `FillDaysFrame` over the days from `s` to `t`. */
  lemma FillRangeFrame(rows: seq<Availability>, e: nat, s: Day, t: Day, form: map<Day, DayForm>)
    ensures var r := FillDays(rows, e, DateRange(s, t), form);
      && (forall k :: 0 <= k < |rows| && !(rows[k].employee == e && s <= rows[k].date <= t) ==> r.rows[k] == rows[k])
      && (forall k :: |rows| <= k < |r.rows| ==> r.rows[k].employee == e && s <= r.rows[k].date <= t)
  {
    DateRangeMembers(s, t);
    FillDaysFrame(rows, e, DateRange(s, t), form);
  }

  /** `fill_availability` on POST, for the employee `e`: the loop over the fill
      range, stated with the properties of the loop collected. */
  function FillAvailability(rows: seq<Availability>, e: nat, settings: seq<FillRangeSetting>,
                            today: Day, form: map<Day, DayForm>): (r: FillResult)
    ensures |r.rows| >= |rows|
    ensures var (s, t) := FillRange(settings, today);
      && (r.failedAt.None? <==> forall d :: s <= d <= t ==> CountRows(rows, e, d) <= 1 && Savable(FormFor(form, d)))
      && (r.failedAt.Some? ==>
            && s <= r.failedAt.value <= t
            && (CountRows(rows, e, r.failedAt.value) > 1 || !Savable(FormFor(form, r.failedAt.value))))
      && (r.failedAt.None? ==> forall d :: s <= d <= t ==> CountRows(r.rows, e, d) == 1)
      && (r.failedAt.None? ==> forall k :: 0 <= k < |r.rows| && r.rows[k].employee == e && s <= r.rows[k].date <= t ==>
            Agrees(r.rows[k], FormFor(form, r.rows[k].date)))
      && (forall k :: 0 <= k < |rows| && !(rows[k].employee == e && s <= rows[k].date <= t) ==> r.rows[k] == rows[k])
      && (forall k :: |rows| <= k < |r.rows| ==> r.rows[k].employee == e && s <= r.rows[k].date <= t)
      && (r.failedAt.Some? ==>
            && PassedBefore(rows, e, s, r.failedAt.value, form)
            && WrittenBefore(r.rows, e, s, r.failedAt.value, form)
            && UntouchedAfter(rows, e, r.failedAt.value, r.rows))
  {
    var (s, t) := FillRange(settings, today);
    var days := DateRange(s, t);
    FillRangeCompletes(rows, e, s, t, form);
    FillRangeWrites(rows, e, s, t, form);
    FillRangeFrame(rows, e, s, t, form);
    FillRangeStop(rows, e, s, t, form);
    FillDays(rows, e, days, form)
  }

  // ----------------------------------------------------------- delete, home

  datatype Response = Done | NotFound | Forbidden

  datatype Outcome<T> = Outcome(response: Response, table: seq<T>)

  /** `get_object_or_404(WorkAvailability, id=...)`. */
  function RowById(rows: seq<Availability>, id: nat): (r: Option<Availability>)
    ensures r.Some? ==> r.value in rows && r.value.id == id
    ensures r.None? <==> forall k :: 0 <= k < |rows| ==> rows[k].id != id
  {
    if |rows| == 0 then None
    else if rows[0].id == id then Some(rows[0])
    else
      var r := RowById(rows[1..], id);
      assert forall k :: 1 <= k < |rows| ==> rows[k] == rows[1..][k - 1];
      r
  }

  /** `delete_availability`: 404 when the record or the requester's profile is
      missing; forbidden unless the requester owns the record or is a manager;
      otherwise the record, and only it, is removed. */
  function DeleteAvailability(rows: seq<Availability>, profiles: seq<Profile>, userId: nat, id: nat): (r: Outcome<Availability>)
    ensures r.response.NotFound? <==> RowById(rows, id).None? || ProfileOf(profiles, userId).None?
    ensures r.response.Forbidden? <==>
              RowById(rows, id).Some? && ProfileOf(profiles, userId).Some?
              && RowById(rows, id).value.employee != ProfileOf(profiles, userId).value.id
              && !IsManager(ProfileOf(profiles, userId).value)
    ensures !r.response.Done? ==> r.table == rows
    ensures r.response.Done? ==> forall a :: a in r.table <==> a in rows && a.id != id
    ensures r.response.Done? ==> |r.table| < |rows|
  {
    var av := RowById(rows, id);
    var profile := ProfileOf(profiles, userId);
    if av.None? || profile.None? then Outcome(NotFound, rows)
    else if av.value.employee != profile.value.id && !IsManager(profile.value) then Outcome(Forbidden, rows)
    else
      var t := Filter(rows, (a: Availability) => a.id != id);
      assert av.value !in t;
      Outcome(Done, t)
  }

  datatype HomePage = ProfileNotFound | ManagerDashboard(employees: seq<Profile>) | WorkerHome(employee: Profile)

  /** `availability_home`: a manager sees the profiles whose role is 'worker',
      a worker sees their own page, a user without a profile gets a 404. */
  function AvailabilityHome(profiles: seq<Profile>, userId: nat): (r: HomePage)
    ensures r.ProfileNotFound? <==> ProfileOf(profiles, userId).None?
    ensures r.ManagerDashboard? <==> ProfileOf(profiles, userId).Some? && IsManager(ProfileOf(profiles, userId).value)
    ensures r.ManagerDashboard? ==> forall p :: p in r.employees <==> p in profiles && p.role == WORKER
    ensures r.WorkerHome? ==> r.employee == ProfileOf(profiles, userId).value && !IsManager(r.employee)
  {
    var profile := ProfileOf(profiles, userId);
    if profile.None? then ProfileNotFound
    else if IsManager(profile.value) then ManagerDashboard(Filter(profiles, (p: Profile) => p.role == WORKER))
    else WorkerHome(profile.value)
  }
}
