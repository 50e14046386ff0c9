/** The manager's scheduling endpoints (scheduling/views.py): the common
    window of several availability ranges, turning availability into
    published shifts, and deleting or retiming one shift. */
module SchedulingViews {
  import opened Base
  import opened Intersection
  import opened SchedulingModels
  import opened AvailabilityModels
  import UserModels

  // ------------------------------------------------------------ dates

  const DATE_LENGTH: nat := 10

  /** `data["date"][:10]`: the calendar-date part of a FullCalendar timestamp
      such as "2025-12-11T09:30:00+08:00". Python slicing never fails, so a
      shorter string comes back whole. */
  function DatePrefix(s: string): (r: string)
    ensures |r| == if |s| < DATE_LENGTH then |s| else DATE_LENGTH
    ensures r <= s
  {
    if |s| < 10 then s else s[..10]
  }

  /** A ten-character date followed by anything reduces to the date, and the
      truncation is idempotent. */
  lemma DatePrefixOfTimestamp(date: string, rest: string)
    requires |date| == DATE_LENGTH
    ensures DatePrefix(date + rest) == date
    ensures DatePrefix(DatePrefix(date + rest)) == DatePrefix(date + rest)
  {
    assert (date + rest)[..10] == date;
  }

  // ------------------------------------------------- calc_intersection

  /** The JSON `{"start": ..., "end": ...}` reply; `None` is JSON null. */
  datatype Reply = Reply(start: Option<Time>, end: Option<Time>)

  datatype CalcResult = ServerError | Json(reply: Reply)

  /** `calc_intersection`: the common window of the posted ranges, or two
      nulls when it is empty. An empty list makes `max` raise, which the view
      does not catch. Since Python 3.5 a `time` value is always true, so
      `if not s` holds only for `None`. */
  function CalcIntersection(ranges: seq<Range>): (r: CalcResult)
    ensures r.ServerError? <==> |ranges| == 0
    ensures r.Json? ==> (r.reply.start.None? <==> r.reply.end.None?)
    ensures r.Json? ==> (r.reply.start.None? <==> MaxStart(ranges) >= MinEnd(ranges))
    ensures r.Json? && r.reply.start.Some? ==>
              r.reply.start.value == MaxStart(ranges) && r.reply.end.value == MinEnd(ranges)
              && r.reply.start.value < r.reply.end.value
  {
    if |ranges| == 0 then ServerError
    else
      match IntersectionTime(ranges)
      case None => Json(Reply(None, None))
      case Some(w) => Json(Reply(Some(w.start), Some(w.end)))
  }

  // ------------------------------------ create_shift_from_availability

  /** The posted date, start and end shared by every listed employee. */
  datatype ShiftRequest = ShiftRequest(date: Day, start: Time, end: Time)

  predicate IsRequested(s: Shift, eid: nat, q: ShiftRequest) {
    s.employee == eid && s.date == q.date && s.start == q.start && s.end == q.end
  }

  /** `Shift.objects.filter(employee_id=eid, date=..., start_time=..., end_time=...).exists()`. */
  predicate HasShift(shifts: seq<Shift>, eid: nat, q: ShiftRequest) {
    exists i :: 0 <= i < |shifts| && IsRequested(shifts[i], eid, q)
  }

  /** An availability row the creation consumes for one of `ids`. */
  predicate Consumed(a: Availability, ids: set<nat>, q: ShiftRequest) {
    a.employee in ids && a.date == q.date && a.start == Some(q.start) && a.end == Some(q.end) && a.available
  }

  /** The rows left after deleting those consumed for `ids`, in table order. */
  function RemoveConsumed(rows: seq<Availability>, ids: set<nat>, q: ShiftRequest): (r: seq<Availability>)
    ensures forall a :: a in r <==> a in rows && !Consumed(a, ids, q)
  {
    if |rows| == 0 then []
    else
      var rest := RemoveConsumed(rows[..|rows| - 1], ids, q);
      var last := rows[|rows| - 1];
      assert rows == rows[..|rows| - 1] + [last];
      if Consumed(last, ids, q) then rest else rest + [last]
  }

  lemma RemoveConsumedAppend(rows: seq<Availability>, x: Availability, ids: set<nat>, q: ShiftRequest)
    ensures RemoveConsumed(rows + [x], ids, q)
            == RemoveConsumed(rows, ids, q) + if Consumed(x, ids, q) then [] else [x]
  {
    assert (rows + [x])[..|rows|] == rows;
  }

  /** Deleting for `a` and then for `b` deletes for both at once. */
  lemma {:induction false} RemoveConsumedTwice(rows: seq<Availability>, a: set<nat>, b: set<nat>, q: ShiftRequest)
    ensures RemoveConsumed(RemoveConsumed(rows, a, q), b, q) == RemoveConsumed(rows, a + b, q)
  {
    if |rows| > 0 {
      var prefix := rows[..|rows| - 1];
      var last := rows[|rows| - 1];
      RemoveConsumedTwice(prefix, a, b, q);
      if !Consumed(last, a, q) {
        RemoveConsumedAppend(RemoveConsumed(prefix, a, q), last, b, q);
      }
    }
  }

  /** Tables and response lists while the view walks the employee list. */
  datatype CreationState = CreationState(
    shifts: seq<Shift>,
    availability: seq<Availability>,
    created: seq<nat>,
    skipped: seq<nat>)

  /** One turn of the loop for employee `eid`: skip when the same shift
      exists; otherwise create it published, and delete the availability it
      consumed. */
  function CreateOne(st: CreationState, q: ShiftRequest, eid: nat): (r: CreationState)
    ensures HasShift(st.shifts, eid, q) ==> r == st.(skipped := st.skipped + [eid])
    ensures HasShift(r.shifts, eid, q)
    ensures !HasShift(st.shifts, eid, q) ==>
              && r.created == st.created + [eid] && r.skipped == st.skipped
              && |r.shifts| == |st.shifts| + 1 && r.shifts[..|st.shifts|] == st.shifts
              && NewShiftFor(r.shifts[|st.shifts|], eid, q)
              && (forall k :: 0 <= k < |st.shifts| ==> st.shifts[k].id < r.shifts[|st.shifts|].id)
              && (forall a :: a in r.availability <==> a in st.availability && !Consumed(a, {eid}, q))
  {
    if HasShift(st.shifts, eid, q) then st.(skipped := st.skipped + [eid])
    else
      var s := NewShift(FreshId(ShiftIds(st.shifts)), eid, q.date, q.start, q.end).(isPublished := true);
      CreationState(st.shifts + [s], RemoveConsumed(st.availability, {eid}, q),
                    st.created + [eid], st.skipped)
  }

  /** The loop over the employee list, in order, while every insert goes
      through. */
  function CreateShifts(shifts: seq<Shift>, avs: seq<Availability>, q: ShiftRequest, eids: seq<nat>): (r: CreationState)
    ensures |r.created| + |r.skipped| == |eids|
    ensures |r.shifts| == |shifts| + |r.created|
    decreases |eids|
  {
    if |eids| == 0 then CreationState(shifts, avs, [], [])
    else CreateOne(CreateShifts(shifts, avs, q, eids[..|eids| - 1]), q, eids[|eids| - 1])
  }

  /** Reference split, decided against the tables as they were before the call:
      an id is created when it has no such shift yet and did not occur earlier
      in the list. */
  function CreatedRef(shifts: seq<Shift>, q: ShiftRequest, eids: seq<nat>): seq<nat>
    decreases |eids|
  {
    if |eids| == 0 then []
    else
      var prefix := eids[..|eids| - 1];
      var last := eids[|eids| - 1];
      CreatedRef(shifts, q, prefix) + if !HasShift(shifts, last, q) && last !in prefix then [last] else []
  }

  /** The complement of `CreatedRef`, in list order. */
  function SkippedRef(shifts: seq<Shift>, q: ShiftRequest, eids: seq<nat>): seq<nat>
    decreases |eids|
  {
    if |eids| == 0 then []
    else
      var prefix := eids[..|eids| - 1];
      var last := eids[|eids| - 1];
      SkippedRef(shifts, q, prefix) + if !HasShift(shifts, last, q) && last !in prefix then [] else [last]
  }

  /** Every listed id lands in exactly one of the two lists. */
  lemma {:induction false} SplitCounts(shifts: seq<Shift>, q: ShiftRequest, eids: seq<nat>)
    ensures multiset(CreatedRef(shifts, q, eids)) + multiset(SkippedRef(shifts, q, eids)) == multiset(eids)
    ensures |CreatedRef(shifts, q, eids)| + |SkippedRef(shifts, q, eids)| == |eids|
    decreases |eids|
  {
    if |eids| > 0 {
      var prefix := eids[..|eids| - 1];
      var last := eids[|eids| - 1];
      SplitCounts(shifts, q, prefix);
      assert eids == prefix + [last];
      assert multiset(eids) == multiset(prefix) + multiset{last};
      var c := CreatedRef(shifts, q, prefix);
      var k := SkippedRef(shifts, q, prefix);
      if !HasShift(shifts, last, q) && last !in prefix {
        assert CreatedRef(shifts, q, eids) == c + [last];
        assert SkippedRef(shifts, q, eids) == k;
      } else {
        assert CreatedRef(shifts, q, eids) == c;
        assert SkippedRef(shifts, q, eids) == k + [last];
      }
    }
  }

  /** Created ids are distinct, come from the list, and had no such shift. */
  lemma {:induction false} SplitCreatedDistinct(shifts: seq<Shift>, q: ShiftRequest, eids: seq<nat>)
    ensures NoDuplicates(CreatedRef(shifts, q, eids))
    ensures forall x :: x in CreatedRef(shifts, q, eids) ==> x in eids && !HasShift(shifts, x, q)
    decreases |eids|
  {
    if |eids| > 0 {
      var prefix := eids[..|eids| - 1];
      var last := eids[|eids| - 1];
      SplitCreatedDistinct(shifts, q, prefix);
      assert eids == prefix + [last];
      var c := CreatedRef(shifts, q, prefix);
      if !HasShift(shifts, last, q) && last !in prefix {
        var r := c + [last];
        assert CreatedRef(shifts, q, eids) == r;
        assert last !in c;
        forall i, j | 0 <= i < j < |r| ensures r[i] != r[j] {
          if j < |c| { assert r[i] == c[i] && r[j] == c[j]; }
          else { assert r[i] in c; }
        }
      }
    }
  }

  /** Every listed id lands in exactly one of the two lists, created ids are
      distinct, and they come from the list. */
  lemma SplitIsPartition(shifts: seq<Shift>, q: ShiftRequest, eids: seq<nat>)
    ensures multiset(CreatedRef(shifts, q, eids)) + multiset(SkippedRef(shifts, q, eids)) == multiset(eids)
    ensures |CreatedRef(shifts, q, eids)| + |SkippedRef(shifts, q, eids)| == |eids|
    ensures NoDuplicates(CreatedRef(shifts, q, eids))
    ensures forall x :: x in CreatedRef(shifts, q, eids) ==> x in eids && !HasShift(shifts, x, q)
  {
    SplitCounts(shifts, q, eids);
    SplitCreatedDistinct(shifts, q, eids);
  }

  lemma HasShiftAppend(shifts: seq<Shift>, s: Shift, eid: nat, q: ShiftRequest)
    ensures HasShift(shifts + [s], eid, q) <==> HasShift(shifts, eid, q) || IsRequested(s, eid, q)
  {
    if HasShift(shifts, eid, q) {
      var i :| 0 <= i < |shifts| && IsRequested(shifts[i], eid, q);
      assert (shifts + [s])[i] == shifts[i];
    }
    if IsRequested(s, eid, q) {
      assert (shifts + [s])[|shifts|] == s;
    }
  }

  predicate NewShiftFor(s: Shift, eid: nat, q: ShiftRequest) {
    IsRequested(s, eid, q) && s.isPublished && s.note == "" && s.store == None
  }

  /** After the loop exactly the previous holders and the listed ids have the
      requested shift. */
  lemma {:induction false} CreateShiftsHolders(shifts: seq<Shift>, avs: seq<Availability>, q: ShiftRequest, eids: seq<nat>)
    ensures forall x :: HasShift(CreateShifts(shifts, avs, q, eids).shifts, x, q) <==> HasShift(shifts, x, q) || x in eids
    decreases |eids|
  {
    if |eids| > 0 {
      var prefix := eids[..|eids| - 1];
      var last := eids[|eids| - 1];
      assert eids == prefix + [last];
      CreateShiftsHolders(shifts, avs, q, prefix);
      var p := CreateShifts(shifts, avs, q, prefix);
      var r := CreateShifts(shifts, avs, q, eids);
      if !HasShift(p.shifts, last, q) {
        var s := r.shifts[|p.shifts|];
        assert r.shifts == p.shifts + [s];
        forall x
          ensures HasShift(r.shifts, x, q) <==> HasShift(shifts, x, q) || x in eids
        {
          HasShiftAppend(p.shifts, s, x, q);
        }
      }
    }
  }

  /** The response lists follow the reference split. */
  lemma {:induction false} CreateShiftsLists(shifts: seq<Shift>, avs: seq<Availability>, q: ShiftRequest, eids: seq<nat>)
    ensures CreateShifts(shifts, avs, q, eids).created == CreatedRef(shifts, q, eids)
    ensures CreateShifts(shifts, avs, q, eids).skipped == SkippedRef(shifts, q, eids)
    decreases |eids|
  {
    if |eids| > 0 {
      var prefix := eids[..|eids| - 1];
      CreateShiftsLists(shifts, avs, q, prefix);
      CreateShiftsHolders(shifts, avs, q, prefix);
    }
  }

  /** The old shifts stay in place, and one new published shift with the
      requested times is appended per created id, each with a fresh id. */
  lemma {:induction false} CreateShiftsTable(shifts: seq<Shift>, avs: seq<Availability>, q: ShiftRequest, eids: seq<nat>)
    ensures var r := CreateShifts(shifts, avs, q, eids);
      && |r.shifts| == |shifts| + |r.created|
      && r.shifts[..|shifts|] == shifts
      && (forall k :: 0 <= k < |r.created| ==> NewShiftFor(r.shifts[|shifts| + k], r.created[k], q))
      && (forall k, j :: 0 <= j < k < |r.shifts| && |shifts| <= k ==> r.shifts[j].id < r.shifts[k].id)
    decreases |eids|
  {
    if |eids| > 0 {
      var prefix := eids[..|eids| - 1];
      CreateShiftsTable(shifts, avs, q, prefix);
      var p := CreateShifts(shifts, avs, q, prefix);
      var r := CreateShifts(shifts, avs, q, eids);
      if r.shifts != p.shifts {
        assert r.shifts == p.shifts + [r.shifts[|p.shifts|]];
        assert r.shifts[..|shifts|] == p.shifts[..|shifts|];
      }
    }
  }

  /** The availability deleted is exactly what the created ids consumed. */
  lemma {:induction false} CreateShiftsAvailability(shifts: seq<Shift>, avs: seq<Availability>, q: ShiftRequest, eids: seq<nat>)
    ensures var r := CreateShifts(shifts, avs, q, eids);
      r.availability == RemoveConsumed(avs, Elements(r.created), q)
    decreases |eids|
  {
    if |eids| == 0 {
      RemoveConsumedNothing(avs, q);
      assert Elements<nat>([]) == {};
    } else {
      var prefix := eids[..|eids| - 1];
      var last := eids[|eids| - 1];
      CreateShiftsAvailability(shifts, avs, q, prefix);
      var p := CreateShifts(shifts, avs, q, prefix);
      var r := CreateShifts(shifts, avs, q, eids);
      if !HasShift(p.shifts, last, q) {
        assert r.availability == RemoveConsumed(p.availability, {last}, q);
        assert r.created == p.created + [last];
        RemoveConsumedTwice(avs, Elements(p.created), {last}, q);
        ElementsAppend(p.created, last);
      }
    }
  }

  lemma {:induction false} RemoveConsumedNothing(rows: seq<Availability>, q: ShiftRequest)
    ensures RemoveConsumed(rows, {}, q) == rows
  {
    if |rows| > 0 {
      RemoveConsumedNothing(rows[..|rows| - 1], q);
      assert rows == rows[..|rows| - 1] + [rows[|rows| - 1]];
    }
  }

  /** When every listed id already has the requested shift, the loop creates
      nothing, skips every id and changes no table. */
  lemma {:induction false} CreateShiftsAllPresent(shifts: seq<Shift>, avs: seq<Availability>, q: ShiftRequest, eids: seq<nat>)
    requires forall x :: x in eids ==> HasShift(shifts, x, q)
    ensures CreateShifts(shifts, avs, q, eids) == CreationState(shifts, avs, [], eids)
    decreases |eids|
  {
    if |eids| > 0 {
      var prefix := eids[..|eids| - 1];
      assert eids == prefix + [eids[|eids| - 1]];
      assert forall x :: x in prefix ==> x in eids;
      CreateShiftsAllPresent(shifts, avs, q, prefix);
    }
  }

  /** Appending shifts whose ids exceed every id before them keeps ids unique. */
  lemma CreatedIdsUnique(shifts: seq<Shift>, r: seq<Shift>)
    requires |shifts| <= |r| && r[..|shifts|] == shifts
    requires forall k, j :: 0 <= j < k < |r| && |shifts| <= k ==> r[j].id < r[k].id
    ensures UniqueShiftIds(shifts) ==> UniqueShiftIds(r)
  {
    forall i, j | UniqueShiftIds(shifts) && 0 <= i < j < |r|
      ensures r[i].id != r[j].id
    {
      if j < |shifts| {
        assert r[i] == shifts[i] && r[j] == shifts[j];
      }
    }
  }

  /** An id whose insert breaks the `Shift.employee` foreign key: the loop
      gets as far as `Shift.objects.create` for it (no such shift yet), but no
      `UserProfile` has that id, so the database raises `IntegrityError`. */
  predicate Orphan(shifts: seq<Shift>, profiles: seq<UserModels.Profile>, q: ShiftRequest, x: nat) {
    !HasShift(shifts, x, q) && x !in UserModels.ProfileIds(profiles)
  }

  /** The first list position holding an orphan id, or the list length when
      there is none. */
  function FirstOrphan(shifts: seq<Shift>, profiles: seq<UserModels.Profile>, q: ShiftRequest, eids: seq<nat>): (i: nat)
    ensures i <= |eids|
    ensures forall j :: 0 <= j < i ==> !Orphan(shifts, profiles, q, eids[j])
    ensures i < |eids| ==> Orphan(shifts, profiles, q, eids[i])
  {
    if |eids| == 0 then 0
    else if Orphan(shifts, profiles, q, eids[0]) then 0
    else
      var i := FirstOrphan(shifts, profiles, q, eids[1..]);
      assert forall j :: 1 <= j < |eids| ==> eids[j] == eids[1..][j - 1];
      i + 1
  }

  /** What `create_shift_from_availability` leaves behind: the JSON reply's
      lists, or the `IntegrityError` raised by the insert for `employee`.
      Either way `state` holds the tables as the view leaves them; the
      inserts and deletions made before the error are already committed. */
  datatype ShiftCreation =
    | ShiftsCreated(state: CreationState)
    | IntegrityError(employee: nat, state: CreationState)

  /** The ids of the list the loop has handled: all of them, or those before
      the failing one. */
  function Handled(shifts: seq<Shift>, profiles: seq<UserModels.Profile>, q: ShiftRequest, eids: seq<nat>): (done: seq<nat>)
    ensures done <= eids
    ensures forall x :: x in done ==> !Orphan(shifts, profiles, q, x)
  {
    eids[..FirstOrphan(shifts, profiles, q, eids)]
  }

  /** `create_shift_from_availability`: the loop runs as `CreateShifts` up to
      the first orphan id, whose insert raises; with none, it runs to the end. */
  function CreateShiftFromAvailability(shifts: seq<Shift>, avs: seq<Availability>, profiles: seq<UserModels.Profile>,
                                       q: ShiftRequest, eids: seq<nat>): (r: ShiftCreation)
    ensures r.IntegrityError? <==> exists x :: x in eids && Orphan(shifts, profiles, q, x)
    ensures r.IntegrityError? ==> r.employee in eids && Orphan(shifts, profiles, q, r.employee)
    ensures r.IntegrityError? ==> !HasShift(r.state.shifts, r.employee, q)
    ensures r.ShiftsCreated? ==> Handled(shifts, profiles, q, eids) == eids
    ensures var done := Handled(shifts, profiles, q, eids);
      && r.state.created == CreatedRef(shifts, q, done)
      && r.state.skipped == SkippedRef(shifts, q, done)
      && multiset(r.state.created) + multiset(r.state.skipped) == multiset(done)
      && NoDuplicates(r.state.created)
      && (forall x :: x in r.state.created ==> x in done && !HasShift(shifts, x, q))
      && (forall x :: HasShift(r.state.shifts, x, q) <==> HasShift(shifts, x, q) || x in done)
    ensures |r.state.shifts| == |shifts| + |r.state.created| && r.state.shifts[..|shifts|] == shifts
    ensures forall k :: 0 <= k < |r.state.created| ==> NewShiftFor(r.state.shifts[|shifts| + k], r.state.created[k], q)
    ensures forall k :: |shifts| <= k < |r.state.shifts| ==> r.state.shifts[k].employee in UserModels.ProfileIds(profiles)
    ensures UniqueShiftIds(shifts) ==> UniqueShiftIds(r.state.shifts)
    ensures forall a :: a in r.state.availability <==> a in avs && !Consumed(a, Elements(r.state.created), q)
  {
    var i := FirstOrphan(shifts, profiles, q, eids);
    var done := eids[..i];
    CreateShiftsHolders(shifts, avs, q, done);
    CreateShiftsLists(shifts, avs, q, done);
    CreateShiftsTable(shifts, avs, q, done);
    CreateShiftsAvailability(shifts, avs, q, done);
    SplitIsPartition(shifts, q, done);
    var st := CreateShifts(shifts, avs, q, done);
    CreatedIdsUnique(shifts, st.shifts);
    forall k | |shifts| <= k < |st.shifts|
      ensures st.shifts[k].employee in UserModels.ProfileIds(profiles)
    {
      assert NewShiftFor(st.shifts[|shifts| + (k - |shifts|)], st.created[k - |shifts|], q);
      assert st.created[k - |shifts|] in done;
    }
    if i == |eids| then
      assert done == eids;
      ShiftsCreated(st)
    else
      assert eids[i] !in done;
      ShiftCreation.IntegrityError(eids[i], st)
  }

  /** Posting the same request again after it went through creates nothing,
      skips every id and changes no table. */
  lemma CreateShiftFromAvailabilityAgain(shifts: seq<Shift>, avs: seq<Availability>, profiles: seq<UserModels.Profile>,
                                         q: ShiftRequest, eids: seq<nat>)
    requires CreateShiftFromAvailability(shifts, avs, profiles, q, eids).ShiftsCreated?
    ensures var st := CreateShiftFromAvailability(shifts, avs, profiles, q, eids).state;
      CreateShiftFromAvailability(st.shifts, st.availability, profiles, q, eids)
        == ShiftsCreated(CreationState(st.shifts, st.availability, [], eids))
  {
    var st := CreateShiftFromAvailability(shifts, avs, profiles, q, eids).state;
    assert forall x :: x in eids ==> HasShift(st.shifts, x, q);
    CreateShiftsAllPresent(st.shifts, st.availability, q, eids);
    var again := CreateShiftFromAvailability(st.shifts, st.availability, profiles, q, eids);
    assert again.ShiftsCreated?;
    assert Handled(st.shifts, profiles, q, eids) == eids;
  }

  /** A listed id that already had the requested shift is never created, and
      is reported as skipped when the request goes through. */
  lemma PreviousHoldersSkipped(shifts: seq<Shift>, avs: seq<Availability>, profiles: seq<UserModels.Profile>,
                               q: ShiftRequest, eids: seq<nat>, x: nat)
    requires x in eids && HasShift(shifts, x, q)
    ensures x !in CreateShiftFromAvailability(shifts, avs, profiles, q, eids).state.created
    ensures CreateShiftFromAvailability(shifts, avs, profiles, q, eids).ShiftsCreated? ==>
              x in CreateShiftFromAvailability(shifts, avs, profiles, q, eids).state.skipped
  {
    var r := CreateShiftFromAvailability(shifts, avs, profiles, q, eids);
    assert x in multiset(eids);
  }

  // ------------------------------------------- delete_shift, update_shift

  /** `delete_shift`: `Shift.objects.filter(id=data.get("id")).delete()`. A
      missing id filters on NULL, which no primary key matches. */
  function DeleteShift(shifts: seq<Shift>, id: Option<int>): (r: seq<Shift>)
    ensures forall s :: s in r <==> s in shifts && id != Some(s.id as int)
    ensures (forall k :: 0 <= k < |shifts| ==> id != Some(shifts[k].id as int)) ==> r == shifts
    ensures forall i :: UniqueShiftIds(shifts) && 0 <= i < |shifts| && id == Some(shifts[i].id as int) ==>
              r == shifts[..i] + shifts[i + 1..]
  {
    var keep := (s: Shift) => id != Some(s.id as int);
    var r := Filter(shifts, keep);
    forall i | UniqueShiftIds(shifts) && 0 <= i < |shifts| && id == Some(shifts[i].id as int)
      ensures r == shifts[..i] + shifts[i + 1..]
    {
      FilterRemovesOne(shifts, keep, i);
    }
    r
  }

  datatype Update = Updated(shifts: seq<Shift>) | DoesNotExist

  /** `update_shift`: `Shift.objects.get(id=...)` raises when no shift has the
      id; otherwise only that shift's start and end change. No ordering check
      is made on the new times. */
  function UpdateShift(shifts: seq<Shift>, id: int, start: Time, end: Time): (r: Update)
    ensures r.DoesNotExist? <==> forall k :: 0 <= k < |shifts| ==> shifts[k].id as int != id
    ensures r.Updated? ==> |r.shifts| == |shifts|
    ensures r.Updated? ==> forall k :: 0 <= k < |shifts| ==>
              && r.shifts[k].(start := shifts[k].start, end := shifts[k].end) == shifts[k]
              && (shifts[k].id as int != id ==> r.shifts[k] == shifts[k])
              && (shifts[k].id as int == id ==> r.shifts[k].start == start && r.shifts[k].end == end)
  {
    if forall k :: 0 <= k < |shifts| ==> shifts[k].id as int != id then DoesNotExist
    else
      Updated(seq(|shifts|, k requires 0 <= k < |shifts| =>
                    if shifts[k].id as int == id then shifts[k].(start := start, end := end) else shifts[k]))
  }
}
