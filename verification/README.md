# scheduling_erp — a Dafny model of the scheduling core

This project models the decision logic of a small Django scheduling ERP for
shops. Managers collect the workers' availability, intersect it into a common
window, turn it into published shifts, and manage the worker list. The model
proves properties of that logic. It covers:

- the interval intersection behind the "common window" (`scheduling/utils.py`);
- the manager's shift endpoints: the intersection reply, creating shifts from
  availability, and deleting or retiming one shift (`scheduling/views.py`);
- the availability pages: the fill range, the per-day set-or-clear loop of a
  fill submission, the delete permission rule, and the manager/worker home page
  (`availability/views.py`, `availability/forms.py`);
- worker management: post-login routing, creating and renaming workers,
  reordering them, and deleting them with everything that cascades
  (`users/views.py`, `users/forms.py`);
- the declared defaults, constraints and orderings of the models, and the
  template context flag `allow_worker_view`;
- the three data migrations that rewrite rows: profile names, the initial
  sort order, and the default store (forwards and backwards).

Encoding:

- Times of day are minutes `0..1439` (`Base.Time`).
- Dates are day numbers counted like Python's `date.toordinal()`, so day 1 is a
  Monday and the weekday is `(d - 1) % 7` (`Base.Weekday`).
- A database table is a sequence of immutable records, and a view is a pure
  function from tables to tables.
- A new primary key is larger than every key in the table (`Base.FreshId`,
  one more than the largest).
- A Django exception that a view does not catch is an explicit result, never a
  precondition. This covers `MultipleObjectsReturned` from `get_or_create`,
  `DoesNotExist` from `get`, a `ProtectedError` on delete, `max` of an empty
  list, the `IntegrityError` of a shift inserted for an employee id with no
  profile, and the `ValidationError` that `save()` raises on an unparsable
  posted time. Work committed before such an error stays in the result.
- A Django `User` row is carried inside the profile that points at it.

One module per source file: `Base` (shared vocabulary), `Intersection`,
`UserModels`, `SchedulingModels`, `AvailabilityModels`, `AvailabilityForms`,
`AvailabilityViews`, `SchedulingViews`, `UserViews`, `ContextProcessors`,
`Migrations`.

## Model

| member | source | states |
|---|---|---|
| Base.Weekday | availability/views.py:97 | `date.weekday()`: a value in 0..6 such that the day minus it is a Monday |
| Base.Strip | users/views.py:48 | `str.strip()`: the result is a slice of the input with only whitespace cut from either end, neither of its ends is whitespace, and it is empty exactly when the input is all whitespace |
| Base.StripIdempotent | users/views.py:48 | stripping an already stripped string changes nothing |
| Intersection.MaxStart | scheduling/utils.py:12 | `max` of the starts: no start exceeds it and some range starts there |
| Intersection.MinEnd | scheduling/utils.py:13 | `min` of the ends: no end is below it and some range ends there |
| Intersection.GetIntersection | scheduling/utils.py:3-19 | an empty list gives no window; otherwise there is no window exactly when the latest start is not before the earliest end; a window runs from the latest start to the earliest end, is non-empty, and lies inside every input range |
| Intersection.IntersectionTime | scheduling/utils.py:21-27 | the second copy agrees with `get_intersection` on every non-empty list; on an empty list `max` raises, so non-emptiness is its precondition |
| Intersection.CommonWindow | scheduling/utils.py:9-19 | a minute is in the result exactly when the list is non-empty and every input range covers that minute |
| Intersection.LargestCommonWindow | scheduling/utils.py:12-19 | every non-empty window lying inside all inputs lies inside the result, so the result is the largest common window |
| Intersection.OrderIndependent | scheduling/utils.py:12-13 | reordering the input ranges does not change the result |
| UserModels.NewProfile | users/models.py:4-20 | a profile created without field values has role 'worker', an empty name, sort order 0 and no primary store, and satisfies the field declarations |
| UserModels.IsManager | users/models.py:22-23 | only the role 'manager' passes, so a manager holds a declared role and is never a worker |
| UserModels.RoleChoicesSplit | users/models.py:5-11 | among the declared role choices, `is_manager` is true exactly for the profiles that are not workers |
| UserModels.DisplayName | users/models.py:25-26 | the name when it is non-empty, otherwise the username; empty only when both are |
| UserModels.ToString | users/models.py:28-29 | `__str__` is the display name |
| UserModels.ProfileOf | users/views.py:24-27 | `request.user.userprofile`: a profile of that user when one exists, and none exactly when no profile points at the user |
| UserModels.UserIsManager | users/views.py:15-19 | `is_manager(user)`: true exactly for an authenticated user whose profile exists and has the role 'manager'; an anonymous user or one without a profile is never a manager |
| UserModels.CountWorkers | users/views.py:65 | `.filter(role="worker").count()`: the number of rows the worker filter keeps, at most the table size, equal to it exactly when every profile is a worker |
| SchedulingModels.NewStore | scheduling/models.py:6-8 | a store created with only a name gets color "#cfe8ff", which fits the 7-character column |
| SchedulingModels.CreateStore | scheduling/models.py:7-8 | the database refuses a store exactly when the name is already in use (the 50-character `max_length` is not enforced, see Left out); otherwise the store is appended with the default color and names stay unique |
| SchedulingModels.StrLeTotal | scheduling/models.py:11 | the order by name relates any two strings one way or the other |
| SchedulingModels.StrLeTransitive | scheduling/models.py:11 | the order by name is transitive |
| SchedulingModels.ListStores | scheduling/models.py:10-11 | a store listing is ordered by name and is a permutation of the table |
| SchedulingModels.SaveWindow | scheduling/models.py:26-31 | the check constraint refuses a window exactly when its end date precedes its start date, so every stored window has end date ≥ start date |
| SchedulingModels.NewWindow | scheduling/models.py:17-22 | both permission flags of a new window default to False |
| SchedulingModels.NewShift | scheduling/models.py:58-77 | a shift created with only its required fields is unpublished, has an empty note that fits the 255-character column, and has no store |
| SchedulingModels.ListShifts | scheduling/models.py:79-80 | a shift listing is ordered by date, then start time, and is a permutation of the table |
| AvailabilityModels.NewAvailability | availability/models.py:4-9 | a record created from employee and date alone is unavailable, with both times null |
| AvailabilityForms.Clean | availability/forms.py:43-62 | with both times present and start ≥ end, one error on `end_time` is added and that field leaves the cleaned data; otherwise the parent's result comes back unchanged |
| AvailabilityForms.CleanRejectsExactly | availability/forms.py:51-56 | an error is added exactly when both times are present and the start is not before the end; equal times are rejected on `end_time` |
| AvailabilityForms.CleanIdempotent | availability/forms.py:51-56 | cleaning a cleaned form adds no second error |
| AvailabilityViews.DateRange | availability/views.py:91-93 | `daterange(s, e)` is s, s+1, …, e (e − s + 1 days) when e ≥ s, and nothing when e < s |
| AvailabilityViews.DateRangeMembers | availability/views.py:91-93 | a day is listed exactly when s ≤ d ≤ e, and no day is listed twice |
| AvailabilityViews.DefaultWeekRange | availability/views.py:95-99 | the default week starts on a Monday on or before today and ends six days later, so today lies inside it |
| AvailabilityViews.DefaultWeekUnique | availability/views.py:95-99 | it is the only Monday-to-Sunday week containing today |
| AvailabilityViews.FirstSetting | availability/views.py:105 | `FillRangeSetting.objects.first()` with no declared ordering: none exactly for an empty table, otherwise a setting whose id is the smallest |
| AvailabilityViews.FillRange | availability/views.py:104-111 | the range is that of the setting with the smallest id when one exists, otherwise the Monday-to-Sunday week containing today |
| AvailabilityViews.StoredTime | availability/views.py:128-129 | a posted time that `save()` accepts is stored as that time, a missing one as NULL |
| AvailabilityViews.Apply | availability/views.py:126-133 | the set/clear branch: the record afterwards agrees with the form (available with the posted times on "yes", otherwise unavailable with no times) and keeps its id, employee and date |
| AvailabilityViews.FillDay | availability/views.py:117-135 | one turn of the loop: with two or more records that day `get_or_create` raises and nothing changes; with none one default record is added; the save fails exactly when a "yes" day posts an unparsable time, and the added record is then kept with its defaults; on success every record of that employee and day is set from the form; no other record changes |
| AvailabilityViews.FillDayCounts | availability/views.py:121-135 | after a turn that passes `get_or_create`, whether the save goes through or not, the employee has exactly one record that day, and every other day's count is unchanged |
| AvailabilityViews.FillDays | availability/views.py:114-135 | the loop over the days: it never removes a record, an empty range changes nothing, and a stop names a listed day |
| AvailabilityViews.FillDaysFrame | availability/views.py:113-135 | the loop keeps every existing record's place, id, employee and date; it leaves records of other employees and other days unchanged; and it adds only records of that employee on listed days |
| AvailabilityViews.FillDaysOtherCounts | availability/views.py:113-135 | days outside the range keep their record count |
| AvailabilityViews.FillDaysCompletes | availability/views.py:113-135 | the loop completes exactly when the employee had at most one record on each day of the range and every "yes" day posted times `save()` accepts; when it stops, it names a day where one of the two fails |
| AvailabilityViews.FillDaysWrites | availability/views.py:113-135 | after a completed loop each day of the range has exactly one record of the employee, holding what that day's form asked for |
| AvailabilityViews.StopIsFinal | availability/views.py:113-135 | once a turn raises, the request ends there: listing more days after the stopped prefix changes neither the table nor the named day |
| AvailabilityViews.FirstStop | availability/views.py:113-135 | a loop that stops has a position i such that the loop over the days before i runs without a raise and the loop that also takes the day at i stops |
| AvailabilityViews.StopAt | availability/views.py:113-135 | a stop is at a position of the day it names: the days before that position ran without a raise, and the final state is the one right after that day's turn |
| AvailabilityViews.StopAtIndex | availability/views.py:113-135 | with no repeated day, that position is the named day's only one, so the stop names the first turn that raised |
| AvailabilityViews.StopIsFirst | availability/views.py:121-135 | every day before the one a stop names had at most one record of the employee and a form that `save()` accepts |
| AvailabilityViews.StopKeepsWritten | availability/views.py:121-135 | every day before the one a stop names has exactly one record of the employee afterwards, holding that day's form values |
| AvailabilityViews.FillDaysStop | availability/views.py:113-135 | the stop state: the failing day is the first one to fail, the earlier days are written with their form values, records outside the employee's days up to the failing one are unchanged, and new records lie only on those days |
| AvailabilityViews.FillRangeStop | availability/views.py:113-135 | the same over the range `s..t`: on a stop at day f, each day from s to before f had at most one record and a savable form and now holds one record with its form values; the employee's records after f are untouched and no record is added after f |
| AvailabilityViews.FillAvailability | availability/views.py:101-137 | the fill POST over the chosen range: it completes exactly when no day has two records and no "yes" day posts an unparsable time, and a stop names such a day; after completion one record per day holds the form's values; nothing outside the range or of another employee is touched, and new records lie only inside the range; on a stop at day f, the days before f passed their turn and hold their form values, and nothing of the employee after f is touched or added |
| AvailabilityViews.RowById | availability/views.py:81 | `get_object_or_404` by id finds a record with that id, and finds none exactly when no record has it |
| AvailabilityViews.DeleteAvailability | availability/views.py:74-89 | not found when the record or the requester's profile is missing; forbidden exactly when the requester neither owns the record nor is a manager; the table changes only on success, when exactly the records with that id go |
| AvailabilityViews.AvailabilityHome | availability/views.py:16-36 | no profile gives 404; a manager sees exactly the worker profiles; anyone else sees their own profile |
| SchedulingViews.DatePrefix | scheduling/views.py:191 | `[:10]` keeps the first ten characters, or the whole string when shorter, and the result is a prefix of it |
| SchedulingViews.DatePrefixOfTimestamp | scheduling/views.py:191 | a ten-character date followed by anything truncates to the date, and truncation is idempotent |
| SchedulingViews.CalcIntersection | scheduling/views.py:164-185 | an empty list is a server error; otherwise both ends are null together, they are null exactly when the latest start is not before the earliest end, and otherwise they are that window |
| SchedulingViews.RemoveConsumed | scheduling/views.py:228-234 | the availability delete keeps exactly the records that are not an available record of a created id with the requested date and times |
| SchedulingViews.RemoveConsumedTwice | scheduling/views.py:228-234 | deleting for one id set and then another equals deleting for their union |
| SchedulingViews.CreateOne | scheduling/views.py:204-234 | one turn of the loop: an id that already holds the shift is only added to `skipped`; otherwise it is added to `created`, one published shift with a fresh id is appended, exactly its consumed availability goes, and either way the id holds the shift afterwards |
| SchedulingViews.CreateShifts | scheduling/views.py:199-225 | the loop while every insert goes through: each listed id is reported once, and one shift is appended per created id |
| SchedulingViews.SplitIsPartition | scheduling/views.py:199-225 | the reference split: every listed id lands in exactly one of `created` and `skipped`; created ids are distinct and come from the list, with no such shift before the call |
| SchedulingViews.CreateShiftsHolders | scheduling/views.py:202-225 | after the loop exactly the previous holders and the listed ids have the requested shift |
| SchedulingViews.CreateShiftsLists | scheduling/views.py:199-225 | the loop's `created` and `skipped` are the reference split |
| SchedulingViews.CreateShiftsTable | scheduling/views.py:216-223 | the loop only appends shifts, one per created id in order, each published with the requested date and times, an empty note and no store, with increasing fresh ids |
| SchedulingViews.CreateShiftsAvailability | scheduling/views.py:227-234 | the loop leaves the availability with exactly the consumed records of the created ids removed |
| SchedulingViews.CreateShiftsAllPresent | scheduling/views.py:204-214 | when every listed id already has the shift, nothing is created and everything is skipped |
| SchedulingViews.FirstOrphan | scheduling/views.py:202-223 | the first list position whose id reaches the insert without a profile to reference, or the list length when there is none |
| SchedulingViews.CreateShiftFromAvailability | scheduling/views.py:187-236 | the whole endpoint: it raises `IntegrityError` exactly when a listed id without the shift has no profile, naming such an id, after committing the work for the ids before it; the handled ids are split into `created` and `skipped`, created ids are distinct and had no prior shift, exactly the prior holders and the handled ids hold the shift, only published shifts referencing existing profiles are appended, unique ids are kept, and only consumed availability is removed |
| SchedulingViews.CreateShiftFromAvailabilityAgain | scheduling/views.py:204-214 | posting a request again after it went through creates nothing, skips every id and changes no table |
| SchedulingViews.PreviousHoldersSkipped | scheduling/views.py:204-214 | a listed id that already had the shift is never created, and is skipped when the request goes through |
| SchedulingViews.DeleteShift | scheduling/views.py:238-244 | exactly the shifts with that id go; a missing or unmatched id changes nothing; with unique ids exactly that one row is removed |
| SchedulingViews.UpdateShift | scheduling/views.py:246-255 | no shift with the id raises `DoesNotExist`; otherwise only that shift's start and end change |
| UserViews.PostLogin | users/views.py:22-32 | a user without a profile goes to login, a manager to the timeline, anyone else to the worker schedule |
| UserViews.ManagerGateMatchesLanding | users/views.py:15-19 | the `is_manager` gate admits exactly the users sent to the timeline, and never an anonymous visitor |
| UserViews.SavedUser | users/forms.py:13-22 | the saved account keeps its id and username and has empty first and last names |
| UserViews.CreateWorker | users/views.py:45-68 | a rename writes the stripped name into the worker profile with that id only, reporting whether one existed; a valid form (the stripped name non-empty, at most 50 characters and free of NUL) adds one valid worker profile with a fresh id, the stripped name and sort order = number of workers + 1 and no primary store; an invalid form changes nothing |
| UserViews.AddWorkerKeepsOrderCompact | users/views.py:45-66 | every `create_worker` POST keeps worker sort orders distinct and within 1..(number of workers) |
| UserViews.IndexOf | users/views.py:108 | `enumerate`: the first position of an id in the list |
| UserViews.WorkerById | users/views.py:106-109 | `id_to_profile.get`: a worker profile with that id, and none exactly when no worker has it |
| UserViews.ReorderWorkers | users/views.py:92-117 | bad JSON, a missing, non-list or empty `ordered_ids`, and a count mismatch are each rejected; on success only sort orders change, unlisted profiles are unchanged, and each listed worker gets its 1-based position |
| UserViews.CountListed | users/views.py:102-104 | `len(workers)`: the number of profiles the filter on role 'worker' and `id__in` keeps |
| UserViews.Changed | users/views.py:107-112 | the ids written so far: at most one per handled position, each a handled id of an existing worker |
| UserViews.CountTestExact | users/views.py:102-104 | with unique ids, the count test passes exactly when the list has no duplicates and every id is a worker's, so duplicates, unknown ids and non-worker ids are rejected |
| UserViews.ReorderAcceptsExactly | users/views.py:98-104 | a reorder is accepted exactly when the list is non-empty, duplicate-free and made of worker ids |
| UserViews.ReorderPositions | users/views.py:108-111 | after an accepted reorder, the worker at 1-based position i has sort order i |
| UserViews.ChangedExactly | users/views.py:108-115 | an id is written exactly when its worker's sort order differed from its position |
| UserViews.ReorderFixpoint | users/views.py:108-111 | a second identical reorder is accepted and computes the same table |
| UserViews.ReorderNothingChanged | users/views.py:110-115 | after an accepted reorder, the same list writes no profile |
| UserViews.ReorderIdempotent | users/views.py:108-115 | reordering twice with the same list leaves the table as the first call did and writes nothing the second time |
| UserViews.DeleteWorker | users/views.py:123-136 | a missing id or one that matches no worker changes nothing; otherwise the worker's user is deleted, and with it exactly that profile, the worker's shifts and the worker's availability |
| UserViews.NewWorkerTiesAfterDelete | users/views.py:65 | after the first of three workers is deleted, the next new worker gets the same sort order as the last remaining one |
| UserViews.MaxWorkerOrder | users/views.py:65 | the largest worker sort order: no worker's is above it, and it is 0 or some worker's |
| UserViews.NextWorkerOrder | users/views.py:65 | the corrected order for a new worker is above every current worker's |
| UserViews.NextWorkerOrderAgrees | users/views.py:65 | when worker orders are compact, the corrected order equals the view's `count + 1` |
| ContextProcessors.LatestIndex | scheduling/context_processors.py:7 | `order_by("-created_at").first()`: a window no other window postdates |
| ContextProcessors.WorkerViewSetting | scheduling/context_processors.py:4-9 | anonymous visitors get an empty context; otherwise the only key is `allow_worker_view`, False with no window and otherwise the flag of a newest window |
| ContextProcessors.NewestWindowDecides | scheduling/context_processors.py:7-9 | when one window is strictly newest, its flag alone decides |
| ContextProcessors.NewWindowTakesOver | scheduling/context_processors.py:7-9 | opening a window newer than all others makes its flag the setting |
| Migrations.InitialName | users/migrations/0002_userprofile_name.py:7-9 | the stripped "last name + first name" when non-empty, otherwise the username; empty only when both are; a name taken from the names is a slice of them and has no surrounding whitespace |
| Migrations.PopulateName | users/migrations/0002_userprofile_name.py:4-10 | every profile gets its user's initial name and nothing else about it changes |
| Migrations.PopulatedDisplayName | users/migrations/0002_userprofile_name.py:8-9 | after the migration a profile with a username displays its stored name |
| Migrations.PopulateNameIdempotent | users/migrations/0002_userprofile_name.py:4-10 | running the migration twice changes nothing more |
| Migrations.SetInitialOrder | users/migrations/0004_userprofile_sort_order.py:4-8 | every profile is processed and only its sort order changes |
| Migrations.SetInitialOrderFollowsIds | users/migrations/0004_userprofile_sort_order.py:6-7 | a profile with a smaller id gets a smaller sort order |
| Migrations.SetInitialOrderBounds | users/migrations/0004_userprofile_sort_order.py:6-7 | every assigned order lies in 1..n |
| Migrations.SetInitialOrderPermutation | users/migrations/0004_userprofile_sort_order.py:6-8 | with unique ids the assigned orders are distinct and are exactly 1..n |
| Migrations.CountNamedUnique | scheduling/migrations/0006_store_and_shift_store.py:27 | with unique store names, at most one store has a given name |
| Migrations.FindNamed | scheduling/migrations/0006_store_and_shift_store.py:7 | the lookup of `get_or_create`: a store with the name, none exactly when no store has it |
| Migrations.AssignStore | scheduling/migrations/0006_store_and_shift_store.py:8 | `filter(store__isnull=True).update(store=...)`: every shift has a store afterwards; those without one get the given store, the others are unchanged |
| Migrations.CreateDefaultStore | scheduling/migrations/0006_store_and_shift_store.py:4-8 | fails exactly when two stores already have the name; otherwise exactly one store named 主店 exists afterwards, created only when none did; store-less shifts point at it; other shifts are unchanged |
| Migrations.CreateDefaultStoreSucceeds | scheduling/migrations/0006_store_and_shift_store.py:7 | with unique names `get_or_create` cannot fail |
| Migrations.CreateDefaultStoreIdempotent | scheduling/migrations/0006_store_and_shift_store.py:7-8 | running the forward step twice adds no second store and changes nothing more |
| Migrations.DeleteDefaultStore | scheduling/migrations/0006_store_and_shift_store.py:11-13 | refused exactly when a shift points at a store named 主店; otherwise exactly the stores of that name are removed and shifts are untouched |
| Migrations.RollbackRestores | scheduling/migrations/0006_store_and_shift_store.py:4-13 | on tables without 主店 whose shifts all point at existing stores, the backward step undoes the forward step. Migration 0006 adds the `store` column itself, so when it runs forward every shift has no store and these preconditions hold only for an empty shift table; with any shift, reversing 0006 is refused (`RollbackRefusedAfterAssignment`) |
| Migrations.RollbackRefusedAfterAssignment | scheduling/migrations/0006_store_and_shift_store.py:8-36 | once the forward step has given a store-less shift the default store, the backward step is refused |

## Left out

- Excel export (`export_excel_view`), the FullCalendar event feeds (`scheduling_data`, `employee_calendar_data`) and `get_available_workers` beyond its `[:10]` truncation. These are presentation and library calls.
- JSON decoding, `strptime`/`strftime`, HTTP status codes, redirects, messages and templates. Times and dates enter the model already parsed. A JSON body that is not an object, or ids that are not integers, are not modelled.
- Authentication decorators, CSRF, sessions and `RoleLoginView`. Django's password and username checks in `UserCreationForm` are an input (`accountValid`).
- The read-then-write race in shift creation and any database locking: concurrency is not modelled.
- `fill_availability` assumes the logged-in user has a profile. The model takes the employee as a parameter, so the error for a user without one is not modelled.
- Only `WorkAvailability` in `availability/models.py` is modelled. The second definition in `scheduling/models.py` is unused by the views.
- Break rules: only the `break_rules` field exists, and no code computes breaks.
- Views listed in `users/urls.py` but absent from `users/views.py` (e.g. `register_worker`, `worker_detail`).
- The worker listing on the `create_worker` page, ordered by (sort order, name, username): presentation only.
- Schema-only migrations, `dummy_data.py` and `create_manager.py`.
- ContextProcessors.WorkerViewSetting: which of several windows with the same newest `created_at` wins is left to the database, so the contract names "a newest window".
- SchedulingModels.CreateStore: the name column's `max_length` of 50 is not enforced; a longer name is inserted, where a database that enforces the length would refuse it with a DataError.
- Migrations.PopulateName: a combined name longer than 50 characters would be rejected by a database that enforces `max_length`; the model stores it as is.
- SchedulingViews.UpdateShift: like `update_shift`, it makes no start-before-end check on the new times.
- Base.FreshId: a new key is one more than the largest key still in the table, so a deleted key can be handed out again, where a database sequence would not. Which id values a row gets across requests, and a later request naming a deleted id, are not modelled.
- UserViews.CreateWorker: the rename branch uses `.update(name=...)`, which bypasses the form, so a stripped name over 50 characters or containing NUL is written as is and reported as `Renamed`. A database that enforces the column length, or rejects NUL, would raise instead; that error is not modelled.
- No code in `scheduling/views.py` checks that a worker's published shifts do not overlap, so the model has no such rule.

## Findings

| source | as written | input that shows it | evidently intended | confidence | as-written member | corrected member |
|---|---|---|---|---|---|---|
| users/views.py:65 | a new worker's sort order is the number of workers + 1 | three workers with orders 1, 2, 3; delete the first; create a worker: it gets order 3, the same as the last remaining worker | the new worker goes after every existing worker (largest order + 1) | medium, not executed | UserViews.NewWorkerTiesAfterDelete | UserViews.NextWorkerOrder |

`UserViews.CreateWorker` keeps the view's `count + 1`. `UserViews.NextWorkerOrderAgrees` proves the corrected order agrees with that formula whenever worker orders are compact. `AddWorkerKeepsOrderCompact` shows `create_worker` keeps orders compact, but `delete_worker` breaks compactness. `set_initial_order` does too, because it numbers managers as well.
