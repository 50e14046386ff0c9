/** The worker-management views (users/views.py): where a user lands after
    login, creating and renaming workers, reordering them, deleting them. */
module UserViews {
  import opened Base
  import opened UserModels
  import SchedulingModels
  import AvailabilityModels

  // ------------------------------------------------------------ post_login

  datatype Landing = LoginPage | Timeline | WorkerSchedule

  /** `post_login`: a user without a profile goes back to the login page, a
      manager to the timeline, anyone else to the worker schedule. */
  function PostLogin(profiles: seq<Profile>, userId: nat): (r: Landing)
    ensures r == LoginPage <==> ProfileOf(profiles, userId).None?
    ensures r == Timeline <==> ProfileOf(profiles, userId).Some? && IsManager(ProfileOf(profiles, userId).value)
    ensures r == WorkerSchedule <==> ProfileOf(profiles, userId).Some? && !IsManager(ProfileOf(profiles, userId).value)
  {
    match ProfileOf(profiles, userId)
    case None => LoginPage
    case Some(p) => if IsManager(p) then Timeline else WorkerSchedule
  }

  /** The `is_manager` gate on the worker views admits exactly the users
      `post_login` sends to the timeline, and never an anonymous visitor. */
  lemma ManagerGateMatchesLanding(ps: seq<Profile>, userId: nat)
    ensures UserIsManager(true, ProfileOf(ps, userId)) <==> PostLogin(ps, userId) == Timeline
    ensures !UserIsManager(false, ProfileOf(ps, userId))
  {
  }

  // ---------------------------------------------------------- create_worker

  /** The POST forms of `create_worker`. A rename carries a non-empty
      `update_profile_id`; otherwise the account form was submitted. Whether
      Django's `UserCreationForm` accepted the username and passwords, and the
      `User` row it builds, are inputs; the `name` field's own checks are
      modelled. */
  datatype CreateWorkerRequest =
    | RenameWorker(profileId: nat, name: string)
    | AddWorker(accountValid: bool, user: User, name: string)

  /** The `name` field of `WorkerCreationForm`: a required `CharField` of at
      most 50 characters, which Django strips before validating and which,
      like every `CharField`, refuses the NUL character. */
  predicate NameFieldValid(raw: string) {
    Strip(raw) != [] && |Strip(raw)| <= NAME_MAX_LENGTH && '\0' !in Strip(raw)
  }

  /** `WorkerCreationForm.save`: a plain account with empty first and last names. */
  function SavedUser(u: User): (r: User)
    ensures r.id == u.id && r.username == u.username
    ensures r.firstName == "" && r.lastName == ""
  {
    u.(firstName := "", lastName := "")
  }

  datatype Notice = Renamed | WorkerNotFound | WorkerCreated | FormInvalid | MissingWorker | WorkerDeleted

  datatype WorkerChange = WorkerChange(notice: Notice, profiles: seq<Profile>)

  /** `UserProfile.objects.filter(id=..., role="worker")` is non-empty. */
  predicate HasWorker(ps: seq<Profile>, id: int) {
    exists k :: 0 <= k < |ps| && ps[k].id as int == id && IsWorker(ps[k])
  }

  /** `create_worker` on POST. A rename writes the stripped name into the
      worker profile with that id and nothing else. A valid account form adds
      one worker profile whose sort order is the number of workers before it
      plus one; an invalid one changes nothing. */
  function CreateWorker(ps: seq<Profile>, req: CreateWorkerRequest): (r: WorkerChange)
    ensures req.RenameWorker? ==> |r.profiles| == |ps|
    ensures req.RenameWorker? ==> (r.notice == Renamed <==> HasWorker(ps, req.profileId))
    ensures req.RenameWorker? ==> forall k :: 0 <= k < |ps| ==>
              && r.profiles[k].(name := ps[k].name) == ps[k]
              && (ps[k].id == req.profileId && IsWorker(ps[k]) ==> r.profiles[k].name == Strip(req.name))
              && (ps[k].id != req.profileId || !IsWorker(ps[k]) ==> r.profiles[k] == ps[k])
    ensures req.AddWorker? && !(req.accountValid && NameFieldValid(req.name)) ==> r == WorkerChange(FormInvalid, ps)
    ensures req.AddWorker? && req.accountValid && NameFieldValid(req.name) ==>
              && r.notice == WorkerCreated
              && |r.profiles| == |ps| + 1 && r.profiles[..|ps|] == ps
              && r.profiles[|ps|].user == SavedUser(req.user)
              && IsWorker(r.profiles[|ps|]) && ValidProfile(r.profiles[|ps|])
              && r.profiles[|ps|].sortOrder == CountWorkers(ps) + 1
              && r.profiles[|ps|].name == Strip(req.name)
              && r.profiles[|ps|].primaryStore.None?
              && (forall k :: 0 <= k < |ps| ==> ps[k].id < r.profiles[|ps|].id)
              && CountWorkers(r.profiles) == CountWorkers(ps) + 1
  {
    match req
    case RenameWorker(pid, name) =>
      var t := seq(|ps|, k requires 0 <= k < |ps| =>
                     if ps[k].id == pid && ps[k].role == WORKER then ps[k].(name := Strip(name)) else ps[k]);
      WorkerChange(if HasWorker(ps, pid) then Renamed else WorkerNotFound, t)
    case AddWorker(accountValid, user, name) =>
      if !accountValid || !NameFieldValid(name) then WorkerChange(FormInvalid, ps)
      else
        var p := Profile(FreshId(ProfileIds(ps)), SavedUser(user), Strip(name), WORKER, CountWorkers(ps) + 1, None);
        var t := ps + [p];
        assert t[..|ps|] == ps;
        WorkerChange(WorkerCreated, t)
  }

  /** Worker sort orders are distinct and run within 1..(number of workers). */
  predicate WorkerOrderCompact(ps: seq<Profile>) {
    && (forall k :: 0 <= k < |ps| && IsWorker(ps[k]) ==> 1 <= ps[k].sortOrder <= CountWorkers(ps))
    && (forall i, j :: 0 <= i < j < |ps| && IsWorker(ps[i]) && IsWorker(ps[j]) ==> ps[i].sortOrder != ps[j].sortOrder)
  }

  /** Two tables that differ only in names have the same number of workers. */
  lemma {:induction false} RenameKeepsCount(ps: seq<Profile>, r: seq<Profile>)
    requires |r| == |ps|
    requires forall k :: 0 <= k < |ps| ==> r[k].(name := ps[k].name) == ps[k]
    ensures CountWorkers(r) == CountWorkers(ps)
  {
    if |ps| > 0 {
      RenameKeepsCount(ps[..|ps| - 1], r[..|r| - 1]);
    }
  }

  /** Every form of `create_worker` keeps the worker sort orders compact: a
      rename touches no sort order, and a new worker goes last. */
  lemma AddWorkerKeepsOrderCompact(ps: seq<Profile>, req: CreateWorkerRequest)
    requires WorkerOrderCompact(ps)
    ensures WorkerOrderCompact(CreateWorker(ps, req).profiles)
  {
    var r := CreateWorker(ps, req).profiles;
    if req.AddWorker? && req.accountValid && NameFieldValid(req.name) {
      forall k | 0 <= k < |ps|
        ensures r[k] == ps[k]
      {
        assert r[k] == r[..|ps|][k];
      }
    } else if req.RenameWorker? {
      RenameKeepsCount(ps, r);
    }
  }

  // -------------------------------------------------------- reorder_workers

  /** The `ordered_ids` entry of the posted JSON: missing, present but not a
      list, or a list of ids. */
  datatype OrderedIds = Absent | NotAList | IdList(ids: seq<int>)

  /** The request body: undecodable JSON, or a decoded object. */
  datatype ReorderPayload = Malformed | Payload(orderedIds: OrderedIds)

  datatype ReorderError = BadFormat | MissingOrder | Incomplete

  /** `updated` lists, in request order, the ids whose sort order was written. */
  datatype ReorderResult = Rejected(error: ReorderError) | Reordered(profiles: seq<Profile>, updated: seq<int>)

  /** A profile `UserProfile.objects.filter(role="worker", id__in=ids)` returns. */
  predicate Listed(p: Profile, ids: seq<int>) {
    IsWorker(p) && p.id as int in ids
  }

  /** `len(workers)`. */
  function CountListed(ps: seq<Profile>, ids: seq<int>): (n: nat)
    ensures n == |Filter(ps, (p: Profile) => Listed(p, ids))|
    ensures n <= |ps|
  {
    if |ps| == 0 then 0
    else CountListed(ps[..|ps| - 1], ids) + if Listed(ps[|ps| - 1], ids) then 1 else 0
  }

  /** Position of `x` in the list, from 0. */
  function IndexOf(ids: seq<int>, x: int): (i: nat)
    requires x in ids
    ensures i < |ids| && ids[i] == x
    ensures forall j :: 0 <= j < i ==> ids[j] != x
  {
    if ids[0] == x then 0 else 1 + IndexOf(ids[1..], x)
  }

  /** The sort order a listed profile receives: its 1-based position. */
  function NewOrder(p: Profile, ids: seq<int>): nat {
    if Listed(p, ids) then IndexOf(ids, p.id as int) + 1 else p.sortOrder
  }

  /** The profile with that id, when one is a worker. */
  function WorkerById(ps: seq<Profile>, id: int): (r: Option<Profile>)
    ensures r.Some? ==> r.value in ps && r.value.id as int == id && IsWorker(r.value)
    ensures r.None? <==> !HasWorker(ps, id)
  {
    if |ps| == 0 then None
    else if ps[0].id as int == id && IsWorker(ps[0]) then Some(ps[0])
    else
      var r := WorkerById(ps[1..], id);
      assert forall k :: 1 <= k < |ps| ==> ps[k] == ps[1..][k - 1];
      r
  }

  /** The ids of `ids[..n]` whose profile's sort order differs from its position. */
  function Changed(ps: seq<Profile>, ids: seq<int>, n: nat): (u: seq<int>)
    requires n <= |ids|
    ensures |u| <= n
    ensures forall x :: x in u ==> x in ids[..n] && WorkerById(ps, x).Some?
  {
    if n == 0 then []
    else
      var x := ids[n - 1];
      var before := Changed(ps, ids, n - 1);
      assert ids[..n] == ids[..n - 1] + [x];
      match WorkerById(ps, x)
      case Some(p) => if p.sortOrder != n then before + [x] else before
      case None => before
  }

  /** `reorder_workers`. */
  function ReorderWorkers(ps: seq<Profile>, payload: ReorderPayload): (r: ReorderResult)
    ensures r == Rejected(BadFormat) <==> payload.Malformed?
    ensures r == Rejected(MissingOrder) <==>
              payload.Payload? && (!payload.orderedIds.IdList? || |payload.orderedIds.ids| == 0)
    ensures r == Rejected(Incomplete) <==>
              payload.Payload? && payload.orderedIds.IdList? && |payload.orderedIds.ids| > 0
              && CountListed(ps, payload.orderedIds.ids) != |payload.orderedIds.ids|
    ensures r.Reordered? ==> |r.profiles| == |ps|
    ensures r.Reordered? ==> forall k :: 0 <= k < |ps| ==>
              && r.profiles[k] == ps[k].(sortOrder := r.profiles[k].sortOrder)
              && (!Listed(ps[k], payload.orderedIds.ids) ==> r.profiles[k] == ps[k])
              && (Listed(ps[k], payload.orderedIds.ids) ==>
                    && 1 <= r.profiles[k].sortOrder <= |payload.orderedIds.ids|
                    && payload.orderedIds.ids[r.profiles[k].sortOrder - 1] == ps[k].id as int)
  {
    match payload
    case Malformed => Rejected(BadFormat)
    case Payload(Absent) => Rejected(MissingOrder)
    case Payload(NotAList) => Rejected(MissingOrder)
    case Payload(IdList(ids)) =>
      if |ids| == 0 then Rejected(MissingOrder)
      else if CountListed(ps, ids) != |ids| then Rejected(Incomplete)
      else
        Reordered(seq(|ps|, k requires 0 <= k < |ps| => ps[k].(sortOrder := NewOrder(ps[k], ids))),
                  Changed(ps, ids, |ids|))
  }

  // ---- why the count test accepts exactly the lists of distinct worker ids

  /** The ids of the listed worker profiles. */
  function ListedIds(ps: seq<Profile>, ids: seq<int>): (s: set<int>)
    ensures forall x :: x in s <==> exists k :: 0 <= k < |ps| && Listed(ps[k], ids) && ps[k].id as int == x
  {
    set k | 0 <= k < |ps| && Listed(ps[k], ids) :: ps[k].id as int
  }

  /** The listed ids of a table, from those of all but its last row. */
  lemma ListedIdsAppend(ps: seq<Profile>, ids: seq<int>)
    requires UniqueIds(ps) && |ps| > 0
    ensures var prefix, last := ps[..|ps| - 1], ps[|ps| - 1];
      && ListedIds(ps, ids) == ListedIds(prefix, ids) + (if Listed(last, ids) then {last.id as int} else {})
      && last.id as int !in ListedIds(prefix, ids)
  {
    var prefix := ps[..|ps| - 1];
    assert forall k :: 0 <= k < |prefix| ==> prefix[k] == ps[k];
  }

  lemma {:induction false} CountListedIsCard(ps: seq<Profile>, ids: seq<int>)
    requires UniqueIds(ps)
    ensures CountListed(ps, ids) == |ListedIds(ps, ids)|
  {
    if |ps| > 0 {
      var prefix := ps[..|ps| - 1];
      assert UniqueIds(prefix) by {
        forall i, j | 0 <= i < j < |prefix| ensures prefix[i].id != prefix[j].id {
          assert prefix[i] == ps[i] && prefix[j] == ps[j];
        }
      }
      CountListedIsCard(prefix, ids);
      ListedIdsAppend(ps, ids);
    }
  }

  /** With unique profile ids, the count test passes exactly when the list
      holds distinct ids, each of a worker profile. So duplicates, unknown ids
      and non-worker ids are all rejected. */
  lemma {:induction false} CountTestExact(ps: seq<Profile>, ids: seq<int>)
    requires UniqueIds(ps)
    ensures CountListed(ps, ids) == |ids| <==> NoDuplicates(ids) && forall x :: x in ids ==> HasWorker(ps, x)
  {
    CountListedIsCard(ps, ids);
    ElementsCard(ids);
    var m := ListedIds(ps, ids);
    var e := Elements(ids);
    assert m <= e;
    if CountListed(ps, ids) == |ids| {
      assert |e - m| == |e| - |m|;
      SubsetEqualCard(m, e);
      forall x | x in ids ensures HasWorker(ps, x) {
        assert x in m;
      }
    }
    if NoDuplicates(ids) && forall x :: x in ids ==> HasWorker(ps, x) {
      forall x | x in e ensures x in m {
        var k :| 0 <= k < |ps| && ps[k].id as int == x && IsWorker(ps[k]);
        assert Listed(ps[k], ids);
      }
      assert m == e;
    }
  }

  /** Acceptance of a reorder request, in the caller's terms. */
  lemma ReorderAcceptsExactly(ps: seq<Profile>, ids: seq<int>)
    requires UniqueIds(ps)
    ensures ReorderWorkers(ps, Payload(IdList(ids))).Reordered?
        <==> |ids| > 0 && NoDuplicates(ids) && forall x :: x in ids ==> HasWorker(ps, x)
  {
    CountTestExact(ps, ids);
  }

  /** After an accepted reorder, the worker at 1-based position i has sort
      order i. */
  lemma ReorderPositions(ps: seq<Profile>, ids: seq<int>, i: nat)
    requires UniqueIds(ps)
    requires ReorderWorkers(ps, Payload(IdList(ids))).Reordered?
    requires i < |ids|
    ensures forall k :: 0 <= k < |ps| && ps[k].id as int == ids[i] ==>
              ReorderWorkers(ps, Payload(IdList(ids))).profiles[k].sortOrder == i + 1
  {
    CountTestExact(ps, ids);
    var r := ReorderWorkers(ps, Payload(IdList(ids))).profiles;
    forall k | 0 <= k < |ps| && ps[k].id as int == ids[i]
      ensures r[k].sortOrder == i + 1
    {
      assert HasWorker(ps, ids[i]);
      var w :| 0 <= w < |ps| && ps[w].id as int == ids[i] && IsWorker(ps[w]);
      assert w == k;
      assert Listed(ps[k], ids);
      var j := IndexOf(ids, ps[k].id as int);
      assert ids[j] == ids[i];
    }
  }

  /** Only the ids whose sort order actually changes are written. */
  lemma {:induction false} ChangedExactly(ps: seq<Profile>, ids: seq<int>, n: nat, x: int)
    requires n <= |ids|
    requires NoDuplicates(ids)
    ensures x in Changed(ps, ids, n) <==>
              exists i :: 0 <= i < n && ids[i] == x && WorkerById(ps, x).Some? && WorkerById(ps, x).value.sortOrder != i + 1
  {
    if n > 0 {
      ChangedExactly(ps, ids, n - 1, x);
    }
  }

  /** An accepted reorder keeps every id and role, so the same list is
      accepted again. */
  lemma ReorderAcceptedAgain(ps: seq<Profile>, ids: seq<int>)
    requires UniqueIds(ps)
    requires ReorderWorkers(ps, Payload(IdList(ids))).Reordered?
    ensures var r := ReorderWorkers(ps, Payload(IdList(ids))).profiles;
      UniqueIds(r) && ReorderWorkers(r, Payload(IdList(ids))).Reordered?
  {
    var r := ReorderWorkers(ps, Payload(IdList(ids))).profiles;
    CountTestExact(ps, ids);
    assert UniqueIds(r) by {
      forall i, j | 0 <= i < j < |r| ensures r[i].id != r[j].id {
        assert r[i].id == ps[i].id && r[j].id == ps[j].id;
      }
    }
    forall x | x in ids ensures HasWorker(r, x) {
      var k :| 0 <= k < |ps| && ps[k].id as int == x && IsWorker(ps[k]);
      assert r[k].id == ps[k].id && IsWorker(r[k]);
    }
    CountTestExact(r, ids);
  }

  /** The second reorder computes the same table. */
  lemma ReorderFixpoint(ps: seq<Profile>, ids: seq<int>)
    requires UniqueIds(ps)
    requires ReorderWorkers(ps, Payload(IdList(ids))).Reordered?
    ensures var r := ReorderWorkers(ps, Payload(IdList(ids))).profiles;
      ReorderWorkers(r, Payload(IdList(ids))).Reordered?
      && ReorderWorkers(r, Payload(IdList(ids))).profiles == r
  {
    var r := ReorderWorkers(ps, Payload(IdList(ids))).profiles;
    ReorderAcceptedAgain(ps, ids);
    var r2 := ReorderWorkers(r, Payload(IdList(ids))).profiles;
    forall k | 0 <= k < |r|
      ensures r2[k] == r[k]
    {
      if Listed(r[k], ids) {
        assert Listed(ps[k], ids);
        ReorderPositions(ps, ids, r[k].sortOrder - 1);
        ReorderPositions(r, ids, r[k].sortOrder - 1);
      }
    }
  }

  /** Nothing is written when every listed worker already has its position. */
  lemma {:induction false} ChangedEmpty(ps: seq<Profile>, ids: seq<int>, n: nat)
    requires n <= |ids|
    requires forall i :: 0 <= i < n && WorkerById(ps, ids[i]).Some? ==> WorkerById(ps, ids[i]).value.sortOrder == i + 1
    ensures Changed(ps, ids, n) == []
  {
    if n > 0 {
      ChangedEmpty(ps, ids, n - 1);
    }
  }

  /** Every listed worker already sits at its position after the first call. */
  lemma ReorderNothingChanged(ps: seq<Profile>, ids: seq<int>)
    requires UniqueIds(ps)
    requires ReorderWorkers(ps, Payload(IdList(ids))).Reordered?
    ensures var r := ReorderWorkers(ps, Payload(IdList(ids))).profiles;
      Changed(r, ids, |ids|) == []
  {
    var r := ReorderWorkers(ps, Payload(IdList(ids))).profiles;
    forall i | 0 <= i < |ids| && WorkerById(r, ids[i]).Some?
      ensures WorkerById(r, ids[i]).value.sortOrder == i + 1
    {
      var p := WorkerById(r, ids[i]).value;
      var k :| 0 <= k < |r| && r[k] == p;
      assert ps[k].id == r[k].id;
      ReorderPositions(ps, ids, i);
    }
    ChangedEmpty(r, ids, |ids|);
  }

  /** Reordering twice with the same list writes nothing the second time and
      leaves the table as the first call left it. */
  lemma ReorderIdempotent(ps: seq<Profile>, ids: seq<int>)
    requires UniqueIds(ps)
    requires ReorderWorkers(ps, Payload(IdList(ids))).Reordered?
    ensures var r := ReorderWorkers(ps, Payload(IdList(ids))).profiles;
      ReorderWorkers(r, Payload(IdList(ids))) == Reordered(r, [])
  {
    ReorderFixpoint(ps, ids);
    ReorderNothingChanged(ps, ids);
  }

  // --------------------------------------------------------- delete_worker

  /** Tables `delete_worker` can touch: deleting the user cascades to the
      profile, and from the profile to its shifts and availability. */
  datatype WorkerTables = WorkerTables(
    profiles: seq<Profile>,
    shifts: seq<SchedulingModels.Shift>,
    availability: seq<AvailabilityModels.Availability>)

  /** `delete_worker`: nothing changes when `profile_id` is missing or no worker
      profile has it; otherwise the worker's user is deleted, and with it the
      profile, the worker's shifts and the worker's availability. */
  function DeleteWorker(t: WorkerTables, profileId: Option<nat>): (r: (Notice, WorkerTables))
    ensures profileId.None? ==> r == (MissingWorker, t)
    ensures profileId.Some? && !HasWorker(t.profiles, profileId.value) ==> r == (WorkerNotFound, t)
    ensures profileId.Some? && HasWorker(t.profiles, profileId.value) ==>
              var p := WorkerById(t.profiles, profileId.value).value;
              && r.0 == WorkerDeleted
              && (forall x :: x in r.1.profiles <==> x in t.profiles && x.user.id != p.user.id)
              && (forall s :: s in r.1.shifts <==> s in t.shifts && s.employee != p.id)
              && (forall a :: a in r.1.availability <==> a in t.availability && a.employee != p.id)
              && p !in r.1.profiles
              && forall i :: OneProfilePerUser(t.profiles) && 0 <= i < |t.profiles| && t.profiles[i] == p ==>
                   r.1.profiles == t.profiles[..i] + t.profiles[i + 1..]
  {
    if profileId.None? then (MissingWorker, t)
    else
      match WorkerById(t.profiles, profileId.value)
      case None => (WorkerNotFound, t)
      case Some(p) =>
        var keep := (x: Profile) => x.user.id != p.user.id;
        var profiles := Filter(t.profiles, keep);
        forall i | OneProfilePerUser(t.profiles) && 0 <= i < |t.profiles| && t.profiles[i] == p
          ensures profiles == t.profiles[..i] + t.profiles[i + 1..]
        {
          FilterRemovesOne(t.profiles, keep, i);
        }
        (WorkerDeleted, WorkerTables(
          profiles,
          Filter(t.shifts, (s: SchedulingModels.Shift) => s.employee != p.id),
          Filter(t.availability, (a: AvailabilityModels.Availability) => a.employee != p.id)))
  }

  /** The one-to-one link from profile to user. */
  predicate OneProfilePerUser(ps: seq<Profile>) {
    forall i, j :: 0 <= i < j < |ps| ==> ps[i].user.id != ps[j].user.id
  }

  // ------------------------------------------- the order of a new worker

  /** Three workers with sort orders 1, 2 and 3. */
  const THREE_WORKERS: seq<Profile> := [
    Profile(1, User(1, "amy", "", ""), "Amy", WORKER, 1, None),
    Profile(2, User(2, "ben", "", ""), "Ben", WORKER, 2, None),
    Profile(3, User(3, "cat", "", ""), "Cat", WORKER, 3, None)]

  /** Deleting the first of the three leaves the other two, in order. */
  lemma DeleteFirstOfThree()
    ensures DeleteWorker(WorkerTables(THREE_WORKERS, [], []), Some(1)).1.profiles == THREE_WORKERS[1..]
  {
    var ps := THREE_WORKERS;
    assert WorkerById(ps, 1) == Some(ps[0]);
    assert OneProfilePerUser(ps);
    assert ps[..0] + ps[1..] == ps[1..];
  }

  lemma DanIsValidName()
    ensures NameFieldValid("Dan")
  {
    assert !IsSpace('D') && !IsSpace('a') && !IsSpace('n');
  }

  /** `create_worker` numbers a new worker by counting the workers, which
      assumes their orders are exactly 1..n. After the first of three workers
      is deleted, two remain with orders 2 and 3, and the next worker created
      is given 3: it ties with the last worker instead of coming after it. */
  lemma NewWorkerTiesAfterDelete()
    ensures var t := DeleteWorker(WorkerTables(THREE_WORKERS, [], []), Some(1)).1.profiles;
      var r := CreateWorker(t, AddWorker(true, User(4, "dan", "", ""), "Dan")).profiles;
      && |r| == 3 && IsWorker(r[1]) && IsWorker(r[2])
      && r[1].sortOrder == 3 && r[2].sortOrder == 3
  {
    DeleteFirstOfThree();
    DanIsValidName();
    var t := THREE_WORKERS[1..];
    TwoWorkersLeft(t);
    var r := CreateWorker(t, AddWorker(true, User(4, "dan", "", ""), "Dan")).profiles;
    assert r[1] == r[..2][1] == t[1];
  }

  lemma TwoWorkersLeft(t: seq<Profile>)
    requires t == THREE_WORKERS[1..]
    ensures |t| == 2 && IsWorker(t[1]) && t[1].sortOrder == 3
    ensures CountWorkers(t) == 2
  {
    assert forall i :: 0 <= i < |t| ==> IsWorker(t[i]);
  }

  /** The largest sort order among the workers, 0 when there is none. */
  function MaxWorkerOrder(ps: seq<Profile>): (m: nat)
    ensures forall k :: 0 <= k < |ps| && IsWorker(ps[k]) ==> ps[k].sortOrder <= m
    ensures m == 0 || exists k :: 0 <= k < |ps| && IsWorker(ps[k]) && ps[k].sortOrder == m
  {
    if |ps| == 0 then 0
    else
      var m := MaxWorkerOrder(ps[..|ps| - 1]);
      assert forall k :: 0 <= k < |ps| - 1 ==> ps[k] == ps[..|ps| - 1][k];
      var last := ps[|ps| - 1];
      if IsWorker(last) && last.sortOrder > m then last.sortOrder else m
  }

  /** The order a new worker needs to be listed after every current worker. */
  function NextWorkerOrder(ps: seq<Profile>): (n: nat)
    ensures n >= 1
    ensures forall k :: 0 <= k < |ps| && IsWorker(ps[k]) ==> ps[k].sortOrder < n
  {
    MaxWorkerOrder(ps) + 1
  }

  /** The sort orders the workers hold. */
  function WorkerOrders(ps: seq<Profile>): (s: set<int>)
    ensures forall x :: x in s <==> exists k :: 0 <= k < |ps| && IsWorker(ps[k]) && ps[k].sortOrder == x
  {
    set k | 0 <= k < |ps| && IsWorker(ps[k]) :: ps[k].sortOrder as int
  }

  /** Worker orders of a table, less its last row. */
  lemma WorkerOrdersAppend(ps: seq<Profile>)
    requires |ps| > 0
    ensures WorkerOrders(ps) == WorkerOrders(ps[..|ps| - 1])
              + (if IsWorker(ps[|ps| - 1]) then {ps[|ps| - 1].sortOrder as int} else {})
  {
    var prefix := ps[..|ps| - 1];
    assert forall k :: 0 <= k < |prefix| ==> prefix[k] == ps[k];
  }

  lemma {:induction false} WorkerOrdersCard(ps: seq<Profile>)
    requires forall i, j :: 0 <= i < j < |ps| && IsWorker(ps[i]) && IsWorker(ps[j]) ==> ps[i].sortOrder != ps[j].sortOrder
    ensures |WorkerOrders(ps)| == CountWorkers(ps)
  {
    if |ps| > 0 {
      var prefix := ps[..|ps| - 1];
      var last := ps[|ps| - 1];
      forall i, j | 0 <= i < j < |prefix| && IsWorker(prefix[i]) && IsWorker(prefix[j])
        ensures prefix[i].sortOrder != prefix[j].sortOrder
      {
        assert prefix[i] == ps[i] && prefix[j] == ps[j];
      }
      WorkerOrdersCard(prefix);
      WorkerOrdersAppend(ps);
      if IsWorker(last) {
        forall k | 0 <= k < |prefix| && IsWorker(prefix[k])
          ensures prefix[k].sortOrder != last.sortOrder
        {
          assert prefix[k] == ps[k];
        }
        assert last.sortOrder as int !in WorkerOrders(prefix);
      }
    }
  }

  /** On tables whose worker orders are compact, counting the workers gives
      the same order as going past the largest one, so the corrected order
      differs from the view's `count + 1` only where the view produces a tie. */
  lemma NextWorkerOrderAgrees(ps: seq<Profile>)
    requires WorkerOrderCompact(ps)
    ensures NextWorkerOrder(ps) == CountWorkers(ps) + 1
  {
    var n := CountWorkers(ps);
    WorkerOrdersCard(ps);
    assert WorkerOrders(ps) <= RangeSet(n);
    SubsetEqualCard(WorkerOrders(ps), RangeSet(n));
    if n > 0 {
      assert n in WorkerOrders(ps);
    } else {
      assert forall k :: 0 <= k < |ps| ==> !IsWorker(ps[k]);
    }
  }
}
