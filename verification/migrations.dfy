/** The data migrations that rewrite rows: filling in profile names
    (users 0002), the initial worker order (users 0004), and the default store
    (scheduling 0006, forwards and backwards). */
module Migrations {
  import opened Base
  import opened UserModels
  import opened SchedulingModels

  // ------------------------------------------------ users 0002: populate_name

  /** The name `populate_name` gives one user: last name then first name,
      stripped, or the username when that leaves nothing. */
  function InitialName(u: User): (r: string)
    ensures r == [] <==> Strip(u.lastName + u.firstName) == [] && u.username == []
    ensures r != u.username ==>
              exists i, j :: 0 <= i <= j <= |u.lastName + u.firstName| && r == (u.lastName + u.firstName)[i..j]
    ensures Strip(u.lastName + u.firstName) != [] ==> r == Strip(u.lastName + u.firstName) && Strip(r) == r
    ensures Strip(u.lastName + u.firstName) == [] ==> r == u.username
  {
    var combined := Strip(u.lastName + u.firstName);
    if combined != [] then
      StripIdempotent(u.lastName + u.firstName);
      combined
    else u.username
  }

  /** `populate_name`: every profile gets its user's initial name, and nothing
      else about it changes. */
  function PopulateName(ps: seq<Profile>): (r: seq<Profile>)
    ensures |r| == |ps|
    ensures forall k :: 0 <= k < |ps| ==>
              r[k].(name := ps[k].name) == ps[k] && r[k].name == InitialName(ps[k].user)
  {
    seq(|ps|, k requires 0 <= k < |ps| => ps[k].(name := InitialName(ps[k].user)))
  }

  /** After `populate_name` the display name is the stored name whenever the
      user had a name or a username. */
  lemma PopulatedDisplayName(ps: seq<Profile>, k: nat)
    requires k < |ps|
    requires ps[k].user.username != []
    ensures DisplayName(PopulateName(ps)[k]) == PopulateName(ps)[k].name
  {
  }

  /** Running `populate_name` twice changes nothing more. */
  lemma PopulateNameIdempotent(ps: seq<Profile>)
    ensures PopulateName(PopulateName(ps)) == PopulateName(ps)
  {
  }

  // ------------------------------------------ users 0004: set_initial_order

  /** How many profiles have an id below `id`. */
  function CountBelow(ps: seq<Profile>, id: nat): (n: nat)
    ensures n <= |ps|
  {
    if |ps| == 0 then 0
    else CountBelow(ps[..|ps| - 1], id) + if ps[|ps| - 1].id < id then 1 else 0
  }

  /** `set_initial_order`: walking the profiles by id, the i-th gets sort
      order i; nothing else about a profile changes. */
  function SetInitialOrder(ps: seq<Profile>): (r: seq<Profile>)
    ensures |r| == |ps|
    ensures forall k :: 0 <= k < |ps| ==> r[k].(sortOrder := ps[k].sortOrder) == ps[k]
  {
    seq(|ps|, k requires 0 <= k < |ps| => ps[k].(sortOrder := CountBelow(ps, ps[k].id) + 1))
  }

  lemma {:induction false} CountBelowMonotone(ps: seq<Profile>, k: nat, b: nat)
    requires k < |ps| && ps[k].id < b
    ensures CountBelow(ps, ps[k].id) < CountBelow(ps, b)
  {
    var prefix := ps[..|ps| - 1];
    if k < |ps| - 1 {
      assert prefix[k] == ps[k];
      CountBelowMonotone(prefix, k, b);
    } else {
      CountBelowWeaklyMonotone(prefix, ps[k].id, b);
    }
  }

  lemma {:induction false} CountBelowWeaklyMonotone(ps: seq<Profile>, a: nat, b: nat)
    requires a <= b
    ensures CountBelow(ps, a) <= CountBelow(ps, b)
  {
    if |ps| > 0 {
      CountBelowWeaklyMonotone(ps[..|ps| - 1], a, b);
    }
  }

  lemma {:induction false} CountBelowOwnId(ps: seq<Profile>, k: nat)
    requires k < |ps|
    ensures CountBelow(ps, ps[k].id) < |ps|
  {
    var prefix := ps[..|ps| - 1];
    if k < |ps| - 1 {
      assert prefix[k] == ps[k];
      CountBelowOwnId(prefix, k);
    }
  }

  /** The sort orders, in table order. */
  function SortOrders(ps: seq<Profile>): (o: seq<nat>)
    ensures |o| == |ps|
    ensures forall k :: 0 <= k < |ps| ==> o[k] == ps[k].sortOrder
  {
    seq(|ps|, k requires 0 <= k < |ps| => ps[k].sortOrder)
  }

  /** `set_initial_order` hands out orders in id order. */
  lemma SetInitialOrderFollowsIds(ps: seq<Profile>, i: nat, j: nat)
    requires i < |ps| && j < |ps| && ps[i].id < ps[j].id
    ensures SetInitialOrder(ps)[i].sortOrder < SetInitialOrder(ps)[j].sortOrder
  {
    CountBelowMonotone(ps, i, ps[j].id);
  }

  /** Every order lies within 1..n. */
  lemma SetInitialOrderBounds(ps: seq<Profile>, k: nat)
    requires k < |ps|
    ensures 1 <= SetInitialOrder(ps)[k].sortOrder <= |ps|
  {
    CountBelowOwnId(ps, k);
  }

  /** With unique ids, `set_initial_order` numbers the profiles exactly
      1..n: no order repeats and every number in 1..n is used. */
  lemma SetInitialOrderPermutation(ps: seq<Profile>)
    requires UniqueIds(ps)
    ensures NoDuplicates(SortOrders(SetInitialOrder(ps)))
    ensures Elements(SortOrders(SetInitialOrder(ps))) == RangeSet(|ps|)
  {
    var orders := SortOrders(SetInitialOrder(ps));
    forall i, j | 0 <= i < j < |orders| ensures orders[i] != orders[j] {
      if ps[i].id < ps[j].id {
        SetInitialOrderFollowsIds(ps, i, j);
      } else {
        SetInitialOrderFollowsIds(ps, j, i);
      }
    }
    ElementsCard(orders);
    forall v | v in Elements(orders) ensures v in RangeSet(|ps|) {
      var k :| 0 <= k < |orders| && orders[k] == v;
      SetInitialOrderBounds(ps, k);
    }
    SubsetEqualCard(Elements(orders), RangeSet(|ps|));
  }

  // ----------------------------------------- scheduling 0006: default store

  const DEFAULT_STORE_NAME: string := "主店"

  datatype MigrationResult =
    | Migrated(stores: seq<Store>, shifts: seq<Shift>)
    | MultipleObjectsReturned
    | ProtectedError

  /** How many stores bear the name. */
  function CountNamed(stores: seq<Store>, name: string): (n: nat)
    ensures n <= |stores|
    ensures n == 0 <==> forall i :: 0 <= i < |stores| ==> stores[i].name != name
  {
    if |stores| == 0 then 0
    else
      var n := CountNamed(stores[..|stores| - 1], name);
      assert forall i :: 0 <= i < |stores| - 1 ==> stores[i] == stores[..|stores| - 1][i];
      n + if stores[|stores| - 1].name == name then 1 else 0
  }

  /** Unique names leave at most one store per name. */
  lemma {:induction false} CountNamedUnique(stores: seq<Store>, name: string)
    requires UniqueNames(stores)
    ensures CountNamed(stores, name) <= 1
  {
    if |stores| > 0 {
      var prefix := stores[..|stores| - 1];
      assert UniqueNames(prefix) by {
        forall i, j | 0 <= i < j < |prefix| ensures prefix[i].name != prefix[j].name {
          assert prefix[i] == stores[i] && prefix[j] == stores[j];
        }
      }
      CountNamedUnique(prefix, name);
      if stores[|stores| - 1].name == name {
        forall i | 0 <= i < |prefix| ensures prefix[i].name != name {
          assert prefix[i] == stores[i];
        }
      }
    }
  }

  /** The first store with the name. */
  function FindNamed(stores: seq<Store>, name: string): (r: Option<Store>)
    ensures r.Some? ==> r.value in stores && r.value.name == name
    ensures r.None? <==> CountNamed(stores, name) == 0
  {
    if |stores| == 0 then None
    else if stores[0].name == name then Some(stores[0])
    else
      var r := FindNamed(stores[1..], name);
      assert forall i :: 1 <= i < |stores| ==> stores[i] == stores[1..][i - 1];
      r
  }

  /** `Shift.objects.filter(store__isnull=True).update(store=...)`. */
  function AssignStore(shifts: seq<Shift>, id: nat): (r: seq<Shift>)
    ensures |r| == |shifts|
    ensures forall k :: 0 <= k < |shifts| ==>
              && r[k].store.Some?
              && (shifts[k].store.Some? ==> r[k] == shifts[k])
              && (shifts[k].store.None? ==> r[k] == shifts[k].(store := Some(id)))
  {
    seq(|shifts|, k requires 0 <= k < |shifts| =>
          if shifts[k].store.None? then shifts[k].(store := Some(id)) else shifts[k])
  }

  /** `create_default_store`: `get_or_create` the store named 主店 (raising when
      two already match), then point every shift without a store at it. */
  function CreateDefaultStore(stores: seq<Store>, shifts: seq<Shift>): (r: MigrationResult)
    ensures r.ProtectedError? == false
    ensures r == MultipleObjectsReturned <==> CountNamed(stores, DEFAULT_STORE_NAME) > 1
    ensures r.Migrated? ==>
              && CountNamed(r.stores, DEFAULT_STORE_NAME) == 1
              && (CountNamed(stores, DEFAULT_STORE_NAME) == 1 ==> r.stores == stores)
              && (CountNamed(stores, DEFAULT_STORE_NAME) == 0 ==>
                    r.stores == stores + [NewStore(FreshId(StoreIds(stores)), DEFAULT_STORE_NAME)])
              && |r.shifts| == |shifts|
              && forall k :: 0 <= k < |shifts| ==>
                   && (shifts[k].store.Some? ==> r.shifts[k] == shifts[k])
                   && (shifts[k].store.None? ==> r.shifts[k] == shifts[k].(store := Some(FindNamed(r.stores, DEFAULT_STORE_NAME).value.id)))
  {
    var n := CountNamed(stores, DEFAULT_STORE_NAME);
    if n > 1 then MultipleObjectsReturned
    else if n == 1 then
      Migrated(stores, AssignStore(shifts, FindNamed(stores, DEFAULT_STORE_NAME).value.id))
    else
      var d := NewStore(FreshId(StoreIds(stores)), DEFAULT_STORE_NAME);
      var t := stores + [d];
      assert t[..|stores|] == stores;
      assert FindNamed(t, DEFAULT_STORE_NAME) == Some(d);
      Migrated(t, AssignStore(shifts, d.id))
  }

  /** The unique name constraint means `get_or_create` cannot find two. */
  lemma CreateDefaultStoreSucceeds(stores: seq<Store>, shifts: seq<Shift>)
    requires UniqueNames(stores)
    ensures CreateDefaultStore(stores, shifts).Migrated?
  {
    CountNamedUnique(stores, DEFAULT_STORE_NAME);
  }

  /** Running the forward step again changes nothing. */
  lemma CreateDefaultStoreIdempotent(stores: seq<Store>, shifts: seq<Shift>)
    requires CreateDefaultStore(stores, shifts).Migrated?
    ensures var r := CreateDefaultStore(stores, shifts);
      CreateDefaultStore(r.stores, r.shifts) == r
  {
    var r := CreateDefaultStore(stores, shifts);
    var r2 := CreateDefaultStore(r.stores, r.shifts);
    assert r2.stores == r.stores;
    forall k | 0 <= k < |shifts| ensures r2.shifts[k] == r.shifts[k] {
    }
  }

  /** Some shift points at a store named 主店 (`on_delete=PROTECT`). */
  predicate ReferencesDefault(stores: seq<Store>, shifts: seq<Shift>) {
    exists k, i :: 0 <= k < |shifts| && 0 <= i < |stores|
      && stores[i].name == DEFAULT_STORE_NAME && shifts[k].store == Some(stores[i].id)
  }

  /** `delete_default_store`: delete every store named 主店, which the
      database refuses while a shift still points at one. */
  function DeleteDefaultStore(stores: seq<Store>, shifts: seq<Shift>): (r: MigrationResult)
    ensures r.MultipleObjectsReturned? == false
    ensures r.ProtectedError? <==> ReferencesDefault(stores, shifts)
    ensures r.Migrated? ==>
              && r.shifts == shifts
              && CountNamed(r.stores, DEFAULT_STORE_NAME) == 0
              && forall s :: s in r.stores <==> s in stores && s.name != DEFAULT_STORE_NAME
  {
    if ReferencesDefault(stores, shifts) then ProtectedError
    else
      var t := Filter(stores, (s: Store) => s.name != DEFAULT_STORE_NAME);
      assert forall i :: 0 <= i < |t| ==> t[i] in t;
      Migrated(t, shifts)
  }

  /** The forward step on tables without 主店 whose shifts all have a store
      only appends the new store. */
  lemma CreateOnlyAppends(stores: seq<Store>, shifts: seq<Shift>)
    requires CountNamed(stores, DEFAULT_STORE_NAME) == 0
    requires forall k :: 0 <= k < |shifts| ==> shifts[k].store.Some?
    ensures CreateDefaultStore(stores, shifts)
         == Migrated(stores + [NewStore(FreshId(StoreIds(stores)), DEFAULT_STORE_NAME)], shifts)
  {
    var r := CreateDefaultStore(stores, shifts);
    assert r.shifts == shifts;
  }

  /** A fresh store is referenced by no shift that pointed at existing stores. */
  lemma FreshStoreUnreferenced(stores: seq<Store>, shifts: seq<Shift>)
    requires CountNamed(stores, DEFAULT_STORE_NAME) == 0
    requires forall k :: 0 <= k < |shifts| ==> shifts[k].store.Some? && shifts[k].store.value in StoreIds(stores)
    ensures !ReferencesDefault(stores + [NewStore(FreshId(StoreIds(stores)), DEFAULT_STORE_NAME)], shifts)
  {
    var d := NewStore(FreshId(StoreIds(stores)), DEFAULT_STORE_NAME);
    var t := stores + [d];
    forall k | 0 <= k < |shifts|
      ensures shifts[k].store != Some(d.id)
    {
      var m :| 0 <= m < |stores| && StoreIds(stores)[m] == shifts[k].store.value;
    }
    forall k, i | 0 <= k < |shifts| && 0 <= i < |t|
      ensures !(t[i].name == DEFAULT_STORE_NAME && shifts[k].store == Some(t[i].id))
    {
      if i < |stores| {
        assert t[i] == stores[i];
      }
    }
  }

  /** Deleting the stores named 主店 from a table where only the last one has
      that name gives back the table before it. */
  lemma DeleteOnlyLast(stores: seq<Store>, d: Store)
    requires CountNamed(stores, DEFAULT_STORE_NAME) == 0
    requires d.name == DEFAULT_STORE_NAME
    ensures Filter(stores + [d], (s: Store) => s.name != DEFAULT_STORE_NAME) == stores
  {
    var t := stores + [d];
    FilterRemovesOne(t, (s: Store) => s.name != DEFAULT_STORE_NAME, |stores|);
    assert t[..|stores|] + t[|stores| + 1..] == stores;
  }

  /** Rolling back right after the forward step restores the tables when no
      store was named 主店 and every shift already pointed at an existing
      store. */
  lemma RollbackRestores(stores: seq<Store>, shifts: seq<Shift>)
    requires CountNamed(stores, DEFAULT_STORE_NAME) == 0
    requires forall k :: 0 <= k < |shifts| ==> shifts[k].store.Some? && shifts[k].store.value in StoreIds(stores)
    ensures var r := CreateDefaultStore(stores, shifts);
      DeleteDefaultStore(r.stores, r.shifts) == Migrated(stores, shifts)
  {
    var d := NewStore(FreshId(StoreIds(stores)), DEFAULT_STORE_NAME);
    CreateOnlyAppends(stores, shifts);
    FreshStoreUnreferenced(stores, shifts);
    DeleteOnlyLast(stores, d);
  }

  /** Once the forward step has given a store-less shift the default store,
      the rollback is refused. */
  lemma RollbackRefusedAfterAssignment(stores: seq<Store>, shifts: seq<Shift>, k: nat)
    requires CreateDefaultStore(stores, shifts).Migrated?
    requires k < |shifts| && shifts[k].store.None?
    ensures var r := CreateDefaultStore(stores, shifts);
      DeleteDefaultStore(r.stores, r.shifts) == ProtectedError
  {
    var r := CreateDefaultStore(stores, shifts);
    var d := FindNamed(r.stores, DEFAULT_STORE_NAME).value;
    var i :| 0 <= i < |r.stores| && r.stores[i] == d;
    assert r.shifts[k].store == Some(r.stores[i].id);
  }
}
