/** Accounts and their profiles (users/models.py). A Django `User` row is
    carried inside the profile that points at it. */
module UserModels {
  import opened Base

  datatype User = User(id: nat, username: string, firstName: string, lastName: string)

  datatype Profile = Profile(
    id: nat,
    user: User,
    name: string,
    role: string,
    sortOrder: nat,
    primaryStore: Option<nat>)

  const WORKER: string := "worker"
  const MANAGER: string := "manager"

  /** The values the `role` field is declared with. */
  const ROLE_CHOICES: set<string> := {WORKER, MANAGER}

  const NAME_MAX_LENGTH: nat := 50
  const ROLE_MAX_LENGTH: nat := 10

  /** What the field declarations admit for one profile. */
  predicate ValidProfile(p: Profile) {
    && |p.name| <= NAME_MAX_LENGTH
    && |p.role| <= ROLE_MAX_LENGTH
    && p.role in ROLE_CHOICES
  }

  /** A profile as created when no field is given: role 'worker', empty name,
      sort order 0, no primary store. */
  function NewProfile(id: nat, user: User): (p: Profile)
    ensures ValidProfile(p) && !IsManager(p)
    ensures p.id == id && p.user == user
    ensures p.name == "" && p.sortOrder == 0 && p.primaryStore == None
  {
    Profile(id, user, "", WORKER, 0, None)
  }

  /** `UserProfile.is_manager`: only the role 'manager' passes, so a manager
      holds a declared role and is never a worker. */
  predicate IsManager(p: Profile)
    ensures IsManager(p) ==> p.role in ROLE_CHOICES && !IsWorker(p)
  {
    p.role == MANAGER
  }

  predicate IsWorker(p: Profile) {
    p.role == WORKER
  }

  /** The two declared roles are told apart by `is_manager`. */
  lemma RoleChoicesSplit(p: Profile)
    requires ValidProfile(p)
    ensures IsManager(p) <==> !IsWorker(p)
  {
  }

  /** `UserProfile.display_name`: the name when non-empty, otherwise the
      username (Python's `or` treats "" as false). */
  function DisplayName(p: Profile): (r: string)
    ensures p.name != "" ==> r == p.name
    ensures p.name == "" ==> r == p.user.username
    ensures r == "" ==> p.name == "" && p.user.username == ""
  {
    if p.name != "" then p.name else p.user.username
  }

  /** `UserProfile.__str__`. */
  function ToString(p: Profile): (r: string)
    ensures r == DisplayName(p)
  {
    if |p.name| > 0 then p.name else p.user.username
  }

  /** The `is_manager(user)` helper shared by the views: false for an anonymous
      user and for a user with no profile, otherwise the profile's role test. */
  predicate UserIsManager(authenticated: bool, profile: Option<Profile>)
    ensures UserIsManager(authenticated, profile) ==> authenticated && profile.Some?
    ensures UserIsManager(authenticated, profile) <==> authenticated && profile.Some? && profile.value.role == MANAGER
  {
    authenticated && profile.Some? && IsManager(profile.value)
  }

  /** `request.user.userprofile`: the profile attached to a user, if any. */
  function ProfileOf(ps: seq<Profile>, userId: nat): (r: Option<Profile>)
    ensures r.Some? ==> r.value in ps && r.value.user.id == userId
    ensures r.None? <==> forall i :: 0 <= i < |ps| ==> ps[i].user.id != userId
  {
    if |ps| == 0 then None
    else if ps[0].user.id == userId then Some(ps[0])
    else
      var r := ProfileOf(ps[1..], userId);
      assert forall i :: 1 <= i < |ps| ==> ps[i] == ps[1..][i - 1];
      r
  }

  function ProfileIds(ps: seq<Profile>): (ids: seq<nat>)
    ensures |ids| == |ps|
    ensures forall i :: 0 <= i < |ps| ==> ids[i] == ps[i].id
  {
    seq(|ps|, i requires 0 <= i < |ps| => ps[i].id)
  }

  /** The primary key is unique in the profile table. */
  predicate UniqueIds(ps: seq<Profile>) {
    forall i, j :: 0 <= i < j < |ps| ==> ps[i].id != ps[j].id
  }

  /** `UserProfile.objects.filter(role="worker").count()`. */
  function CountWorkers(ps: seq<Profile>): (n: nat)
    ensures n == |Filter(ps, IsWorker)|
    ensures n <= |ps|
    ensures n == |ps| <==> forall i :: 0 <= i < |ps| ==> IsWorker(ps[i])
  {
    if |ps| == 0 then 0
    else
      var n := CountWorkers(ps[..|ps| - 1]);
      assert forall i :: 0 <= i < |ps| - 1 ==> ps[i] == ps[..|ps| - 1][i];
      n + if IsWorker(ps[|ps| - 1]) then 1 else 0
  }
}
