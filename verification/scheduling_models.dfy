/** Stores, scheduling windows and shifts (scheduling/models.py): the
    declared defaults, the database constraints and the default orderings. */
module SchedulingModels {
  import opened Base

  // ---------------------------------------------------------------- Store

  datatype Store = Store(id: nat, name: string, color: string)

  const DEFAULT_STORE_COLOR: string := "#cfe8ff"
  const STORE_COLOR_MAX_LENGTH: nat := 7

  /** A store created with only a name: its color takes the declared default,
      which fits the declared width. */
  function NewStore(id: nat, name: string): (s: Store)
    ensures s.id == id && s.name == name
    ensures s.color == DEFAULT_STORE_COLOR && |s.color| <= STORE_COLOR_MAX_LENGTH
  {
    Store(id, name, "#cfe8ff")
  }

  /** The `unique=True` constraint on `Store.name`. */
  predicate UniqueNames(stores: seq<Store>) {
    forall i, j :: 0 <= i < j < |stores| ==> stores[i].name != stores[j].name
  }

  function StoreIds(stores: seq<Store>): (ids: seq<nat>)
    ensures |ids| == |stores|
    ensures forall i :: 0 <= i < |stores| ==> ids[i] == stores[i].id
  {
    seq(|stores|, i requires 0 <= i < |stores| => stores[i].id)
  }

  datatype Insert<T> = Inserted(table: seq<T>) | IntegrityError

  /** Inserting a store: the database refuses a name already in use, so the
      table never holds two stores with one name. */
  function CreateStore(stores: seq<Store>, name: string): (r: Insert<Store>)
    ensures r.IntegrityError? <==> exists i :: 0 <= i < |stores| && stores[i].name == name
    ensures r.Inserted? ==> |r.table| == |stores| + 1 && r.table[..|stores|] == stores
    ensures r.Inserted? ==> (r.table[|stores|].name == name
                             && r.table[|stores|].color == DEFAULT_STORE_COLOR)
    ensures r.Inserted? && UniqueNames(stores) ==> UniqueNames(r.table)
  {
    if exists i :: 0 <= i < |stores| && stores[i].name == name then IntegrityError
    else
      var t := stores + [NewStore(FreshId(StoreIds(stores)), name)];
      assert t[..|stores|] == stores;
      Inserted(t)
  }

  /** Code-point lexicographic order on strings (the order of `ordering = ["name"]`
      under a binary collation). */
  predicate StrLe(a: string, b: string)
    decreases |a|
  {
    |a| == 0 || (|b| > 0 && (a[0] < b[0] || (a[0] == b[0] && StrLe(a[1..], b[1..]))))
  }

  lemma {:induction false} StrLeTotal(a: string, b: string)
    ensures StrLe(a, b) || StrLe(b, a)
    decreases |a|
  {
    if |a| > 0 && |b| > 0 && a[0] == b[0] {
      StrLeTotal(a[1..], b[1..]);
    }
  }

  lemma {:induction false} StrLeTransitive(a: string, b: string, c: string)
    requires StrLe(a, b) && StrLe(b, c)
    ensures StrLe(a, c)
    decreases |a|
  {
    if |a| > 0 && a[0] == b[0] && b[0] == c[0] {
      StrLeTransitive(a[1..], b[1..], c[1..]);
    }
  }

  predicate StoresSorted(s: seq<Store>) {
    forall i, j :: 0 <= i < j < |s| ==> StrLe(s[i].name, s[j].name)
  }

  function InsertStore(x: Store, s: seq<Store>): (r: seq<Store>)
    requires StoresSorted(s)
    ensures StoresSorted(r)
    ensures multiset(r) == multiset(s) + multiset{x}
  {
    if |s| == 0 then [x]
    else if StrLe(x.name, s[0].name) then
      forall j | 0 <= j < |s|
        ensures StrLe(x.name, s[j].name)
      {
        if j > 0 { StrLeTransitive(x.name, s[0].name, s[j].name); }
      }
      [x] + s
    else
      StrLeTotal(x.name, s[0].name);
      var rest := InsertStore(x, s[1..]);
      assert s == [s[0]] + s[1..];
      forall k | 0 <= k < |rest|
        ensures StrLe(s[0].name, rest[k].name)
      {
        assert rest[k] in multiset(rest);
        if rest[k] != x {
          assert rest[k] in multiset(s[1..]);
          var j :| 0 <= j < |s[1..]| && s[1..][j] == rest[k];
          assert s[j + 1] == rest[k];
        }
      }
      [s[0]] + rest
  }

  /** A store listing: `Store.Meta.ordering = ["name"]`, a reordering of the table. */
  function ListStores(s: seq<Store>): (r: seq<Store>)
    ensures StoresSorted(r)
    ensures multiset(r) == multiset(s)
  {
    if |s| == 0 then []
    else
      assert s == s[..|s| - 1] + [s[|s| - 1]];
      InsertStore(s[|s| - 1], ListStores(s[..|s| - 1]))
  }

  // ---------------------------------------------------- SchedulingWindow

  /** `created_at` is an abstract, totally ordered timestamp. */
  datatype SchedulingWindow = SchedulingWindow(
    id: nat,
    startDate: Day,
    endDate: Day,
    allowWorkerView: bool,
    allowWorkerEditShifts: bool,
    createdAt: int)

  /** The check constraint `schedulingwindow_end_date_gte_start_date`. */
  predicate WindowValid(w: SchedulingWindow) {
    w.endDate >= w.startDate
  }

  predicate WindowsValid(ws: seq<SchedulingWindow>) {
    forall i :: 0 <= i < |ws| ==> WindowValid(ws[i])
  }

  /** Saving a window: the database refuses one whose end date precedes its
      start date, so every stored window has end_date >= start_date. */
  function SaveWindow(ws: seq<SchedulingWindow>, w: SchedulingWindow): (r: Insert<SchedulingWindow>)
    ensures r.IntegrityError? <==> w.endDate < w.startDate
    ensures r.Inserted? ==> r.table == ws + [w]
    ensures r.Inserted? && WindowsValid(ws) ==> WindowsValid(r.table)
  {
    if w.endDate < w.startDate then IntegrityError else Inserted(ws + [w])
  }

  /** Both permission flags default to False. */
  function NewWindow(id: nat, startDate: Day, endDate: Day, createdAt: int): (w: SchedulingWindow)
    ensures !w.allowWorkerView && !w.allowWorkerEditShifts
    ensures w.startDate == startDate && w.endDate == endDate && w.createdAt == createdAt
  {
    SchedulingWindow(id, startDate, endDate, false, false, createdAt)
  }

  // ---------------------------------------------------------------- Shift

  /** `store` is nullable (`null=True` since migration 0009). */
  datatype Shift = Shift(
    id: nat,
    employee: nat,
    store: Option<nat>,
    date: Day,
    start: Time,
    end: Time,
    isPublished: bool,
    note: string)

  const NOTE_MAX_LENGTH: nat := 255

  /** A shift created with only its required fields: not published, empty
      note, no store. */
  function NewShift(id: nat, employee: nat, date: Day, start: Time, end: Time): (s: Shift)
    ensures !s.isPublished && s.note == "" && s.store == None
    ensures |s.note| <= NOTE_MAX_LENGTH
    ensures s.id == id && s.employee == employee && s.date == date
    ensures s.start == start && s.end == end
  {
    Shift(id, employee, None, date, start, end, false, "")
  }

  function ShiftIds(shifts: seq<Shift>): (ids: seq<nat>)
    ensures |ids| == |shifts|
    ensures forall i :: 0 <= i < |shifts| ==> ids[i] == shifts[i].id
  {
    seq(|shifts|, i requires 0 <= i < |shifts| => shifts[i].id)
  }

  predicate UniqueShiftIds(shifts: seq<Shift>) {
    forall i, j :: 0 <= i < j < |shifts| ==> shifts[i].id != shifts[j].id
  }

  /** `Shift.Meta.ordering = ['date', 'start_time']`. */
  predicate ShiftLe(a: Shift, b: Shift) {
    a.date < b.date || (a.date == b.date && a.start <= b.start)
  }

  predicate ShiftsSorted(s: seq<Shift>) {
    forall i, j :: 0 <= i < j < |s| ==> ShiftLe(s[i], s[j])
  }

  function InsertShift(x: Shift, s: seq<Shift>): (r: seq<Shift>)
    requires ShiftsSorted(s)
    ensures ShiftsSorted(r)
    ensures multiset(r) == multiset(s) + multiset{x}
  {
    if |s| == 0 then [x]
    else if ShiftLe(x, s[0]) then
      assert forall j :: 0 <= j < |s| ==> ShiftLe(x, s[j]);
      [x] + s
    else
      var rest := InsertShift(x, s[1..]);
      assert s == [s[0]] + s[1..];
      forall k | 0 <= k < |rest|
        ensures ShiftLe(s[0], rest[k])
      {
        assert rest[k] in multiset(rest);
        if rest[k] != x {
          assert rest[k] in multiset(s[1..]);
          var j :| 0 <= j < |s[1..]| && s[1..][j] == rest[k];
          assert s[j + 1] == rest[k];
        }
      }
      [s[0]] + rest
  }

  /** A shift listing: ordered by date, then start time, a reordering of the table. */
  function ListShifts(s: seq<Shift>): (r: seq<Shift>)
    ensures ShiftsSorted(r)
    ensures multiset(r) == multiset(s)
  {
    if |s| == 0 then []
    else
      assert s == s[..|s| - 1] + [s[|s| - 1]];
      InsertShift(s[|s| - 1], ListShifts(s[..|s| - 1]))
  }
}
