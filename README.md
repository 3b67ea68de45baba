# Student check-in escalation (Sprout client), modelled in Dafny

The Sprout client keeps a list of students in the state of its `App` React
component. A teacher gives each student a mini-goal and a priority. Saving
the goal starts a countdown whose length depends on the priority. When the
countdown expires the student is put in an "alert" state and stamped with
the expiry time. The main view then lists the alerted students first,
earliest expiry first, and after them the other students in list order.

The model has three modules:

- `Students` (`students.dfy`): the `Student` record and the pure list
  computations each handler of `src/App.js` builds its new `students` array
  with: `find`, the `map` that replaces one id, `filter`, hydration, reset,
  alert, toggle and goal update. It also holds the priority fallback and the
  countdown table, and the lemmas that state what each handler does to the
  list.
- `Ordering` (`ordering.dfy`): the display order of `Main.render`. The
  records with `order !== 0` are sorted with the source's comparator and
  then followed by the `order === 0` records. The lemmas prove it is a
  permutation, escalated-first and sorted, that it keeps the waiting
  records' order, that it is unique when no two escalated records share an
  `order`, and that it is idempotent.
- `AppState` (`app.dfy`): class `App`, whose fields mirror `App.state`
  (`students`, `minigoal`, `priority`, `newStudentName`). A `timers` field
  holds the callbacks queued by `setTimeout` that have not fired yet. Each
  handler is a method that assigns these fields. `FireTimer` stands for the
  runtime running one queued callback. Three client methods chain the
  handlers into check-in runs.

Modelling choices:

- `order` is an `int`, and `0` means "not escalated". The `new Date()` that
  `handleAlert` stores is passed in as a `Timestamp`, a positive integer:
  a `Date` is never `=== 0`.
- Priorities stay strings, as in the source. `Duration` maps `"high"` to
  300000 ms, `"medium"` to 600000 ms and every other string to 1200000 ms.
- `find` returning `undefined` is modelled as follows:
  - in `handleAlert` and in `handleUpdateGoal`, the following `map` replaces
    nothing, so the list is unchanged;
  - in `toggleExpand`, the source throws on `studentToExpand.alert`;
    `ToggleStudents` returns `None` and `App.ToggleExpand` reports
    `found == false` and changes nothing;
  - in `handleUpdateGoal`, the timer is queued for `undefined`
    (a `Timer` with target `None`), and firing it changes nothing.
- The three persistence calls (`updateStudent`, `postStudent`,
  `deleteStudent`) are replaced by a `saved` flag. It selects the `.then`
  branch (state update) or the `.catch` branch (no state change modelled).

Behaviour of the code that the model follows as written:

- No timer is ever cancelled. A new goal, a reset or a delete leaves the
  queued timers in place, so a stale timer can still alert a record
  (`StaleTimerScenario`).
- `handleUpdateGoal` leaves `alert` as it was and only zeroes `order`.
- The first `toggleExpand` of an alerted record keeps its `order`. The
  second one finds `alert == false` and resets `order` to 0
  (`Students.ExpandThenCollapse`). So collapsing does not keep the
  escalation stamp.
- The comparator `a.order > b.order ? 1 : -1` never returns 0, so records
  with equal `order` have no defined relative order. ECMAScript leaves that
  order implementation-defined.
- `toggleExpand` on an unknown id throws. It does not quietly do nothing.

## Model

| member | source | states |
|---|---|---|
| Students.Find | src/App.js:303-305 | `None` exactly when no record has the id; otherwise the first record with that id |
| Students.ReplaceById | src/App.js:182-184 | same length; records with the id become the new record; all others unchanged in place |
| Students.Filter | src/App.js:215-217 | never longer than the input; every kept record satisfies the predicate |
| Students.FilterCount | src/components/Main/Main.js:37-39 | each accepted record is kept exactly as often as it occurs; rejected records do not appear |
| Students.FilterOrder | src/components/Main/Main.js:37-39 | the filtered list is a subsequence of the input, so relative order is kept |
| Students.NormalizePriority | src/App.js:112-117 | the stored priority is never empty: `""` becomes `"low"`; any other string is kept |
| Students.Duration | src/App.js:166-170 | 300000 exactly for `"high"`, 600000 exactly for `"medium"`, 1200000 exactly for all other strings |
| Students.DurationByUrgency | src/App.js:166-169 | `"high"` waits least, `"medium"` beats every other string except `"high"`, and the fallback priority waits longest |
| Students.Hydrate | src/App.js:46-58 | same length; each record keeps id, name and goal, and gets `priority "low"`, `expand false`, `alert false`, `order 0` |
| Students.ResetAll | src/App.js:279-299 | same length and positions; each record keeps id and name, and gets goal `""`, priority `"low"`, `expand false`, `alert false`, `order 0` |
| Students.ResetIdempotent | src/App.js:279-299 | resetting twice equals resetting once |
| Students.ResetAfterHydrate | src/App.js:288-296 | resetting a hydrated list equals resetting the fetched list |
| Students.AlertStudents | src/App.js:174-186 | same length; records without the id unchanged; records with the id get `alert true` and `order == now`; the full statement is `AlertSpec` |
| Students.Toggled | src/App.js:306-313 | keeps id, name, goal and priority; negates `expand`; clears `alert`; a non-zero `order` is kept only from an alerted record (`ExpandThenCollapse` composes two) |
| Students.ToggleStudents | src/App.js:302-319 | fails exactly when no record has the id; otherwise keeps the length; the full statement is `ToggleSpec` |
| Students.GoalStudents | src/App.js:138-151 | same length; records without the id unchanged; records with the id get `order 0` and `expand false`; the full statement is `GoalSpec` |
| Students.RemoveStudent | src/App.js:212-219 | never longer than the input and no record with the id remains; the full statement is `RemoveSpec` |
| Students.FindUnique | src/App.js:175-177 | with unique ids, `find` returns the one record that has the id |
| Students.AlertSpec | src/App.js:174-186 | same length; records without the id unchanged; records with it get `alert true`, `order == now` and keep their id; with unique ids the record is otherwise unchanged; an unknown id leaves the list unchanged |
| Students.ToggleSpec | src/App.js:302-319 | fails exactly when no record has the id; otherwise other records are unchanged, and, with unique ids, the matching record has `expand` negated and `alert false`, keeps `order` exactly when it was alerted (else 0), and keeps id, name, goal and priority |
| Students.ExpandThenCollapse | src/App.js:306-313 | with unique ids, two toggles leave the record as it was, except `alert false` and `order 0`; no other record changes |
| Students.GoalSpec | src/App.js:138-151 | with unique ids, the matching record gets the pending goal and priority, `expand false` and `order 0`, and keeps `alert`, id and name; other records are unchanged; an unknown id changes nothing |
| Students.RemoveSpec | src/App.js:212-219 | no record with the id remains; every other record is kept as often as it was, in relative order; an unknown id changes nothing |
| Students.FilterKeepsAll | src/App.js:215-217 | a filter that accepts every record returns the list itself |
| Students.FilterDropsAll | src/components/Main/Main.js:29-31 | a filter that rejects every record returns the empty list |
| Ordering.Compare | src/components/Main/Main.js:33-35 | never answers 0; positive exactly when the first record has the larger `order`, so ties are never reported |
| Ordering.Insert | src/components/Main/Main.js:33-35 | one insertion step of the sort adds exactly the new record to the multiset; sortedness is kept (`InsertSorted`) |
| Ordering.SortByOrder | src/components/Main/Main.js:33-35 | the sort returns a permutation of its input; sortedness is proved in `SortSorted` |
| Ordering.TiesKeepStoredOrder | src/components/Main/Main.js:33-35 | two records with equal `order` keep their stored order: the model's choice for the ties the comparator leaves open |
| Ordering.SortSorted | src/components/Main/Main.js:33-35 | the sorted part is in non-decreasing `order` and is a permutation of its input |
| Ordering.InsertSorted | src/components/Main/Main.js:33-35 | one insertion step keeps a sorted list sorted |
| Ordering.InsertBounded | src/components/Main/Main.js:33-35 | insertion brings in no record above a bound that the list and the new record respect |
| Ordering.SortOfSorted | src/components/Main/Main.js:33-35 | sorting an already sorted list changes nothing |
| Ordering.SortedPermutationUnique | src/components/Main/Main.js:33-35 | two sorted permutations of each other with pairwise distinct `order` are equal |
| Ordering.SameHead | src/components/Main/Main.js:33-35 | two sorted permutations with distinct `order` start with the same record |
| Ordering.SameTail | src/components/Main/Main.js:33-35 | removing a common first record from two permutations of each other leaves permutations |
| Ordering.SortedPartEscalated | src/components/Main/Main.js:29-35 | the sorted part has as many records as are escalated, and each has `order != 0` |
| Ordering.Ordered | src/components/Main/Main.js:29-41 | the display holds the same multiset of records as the stored list, with the same length; its order is stated by `OrderedPartition` |
| Ordering.OrderedPartition | src/components/Main/Main.js:29-41 | with `k` the number of escalated records, a displayed record has `order != 0` exactly when it is among the first `k`; those are in non-decreasing `order`; the rest is a subsequence of the stored list holding each `order 0` record as often as stored |
| Ordering.EscalatedFirst | src/components/Main/Main.js:41 | every displayed record with `order != 0` comes before every displayed record with `order == 0` |
| Ordering.OrderedUnique | src/components/Main/Main.js:29-41 | when the escalated records have pairwise distinct `order`, the display is the only sorted arrangement of them followed by the waiting records in list order |
| Ordering.OrderedFixpoint | src/components/Main/Main.js:29-41 | a list already sorted and escalated-first is displayed as stored |
| Ordering.OrderedIdempotent | src/components/Main/Main.js:29-41 | ordering the displayed list again gives the same list; this relies on the model's sort keeping ties in stored order, as `TiesKeepStoredOrder` shows for two records |
| Ordering.FilterSplit | src/components/Main/Main.js:29-39 | filtering a concatenation is concatenating the filtered parts |
| Ordering.QuietListShownAsStored | src/components/Main/Main.js:37-41 | with no record escalated, the display is the stored list |
| Ordering.ResetShownAsStored | src/App.js:279-299 | after a reset, the display is the stored list |
| Ordering.HydrateShownAsStored | src/App.js:46-58 | after hydration, the display is the stored list |
| Ordering.Render | src/components/Main/Main.js:28-41 | a missing list displays as empty; otherwise the display is a permutation of the stored list (`Ordered`) |
| Ordering.RenderEmpty | src/components/Main/Main.js:28 | a missing or empty list displays as empty |
| Ordering.TwoAlertsAndOneWaiting | src/components/Main/Main.js:29-41 | records stamped `t1 < t2` and one unstamped record, stored in reverse, display as `[t1, t2, unstamped]` |
| Ordering.ExampleFilters | src/components/Main/Main.js:29-39 | for that example, the two filters return the two stamped records and the unstamped one |
| Ordering.ExampleSort | src/components/Main/Main.js:33-35 | for that example, the sort puts `t1` before `t2` |
| AppState.AlertedShownFirst | src/components/Main/Main.js:28-41 | an alerted record stored before a waiting one is displayed first, in stored order |
| AppState.App.constructor | src/App.js:17-27 | the initial state: no students, empty mini-goal and new name, priority `"low"`, no timers |
| AppState.App.SetStudents | src/App.js:46-58 | `students` becomes the hydrated fetched list; nothing else changes |
| AppState.App.UpdateMiniGoal | src/App.js:106-110 | stores the pending mini-goal |
| AppState.App.UpdatePriority | src/App.js:112-117 | stores the normalised priority, so the pending priority is never empty |
| AppState.App.UpdateNewStudentName | src/App.js:119-123 | stores the pending new-student name |
| AppState.App.HandleTimer | src/App.js:167-171 | queues one timer for the student, with the priority's countdown; no timer is removed |
| AppState.App.HandleAlert | src/App.js:174-186 | `students` becomes the alerted list; nothing else changes |
| AppState.App.FireTimer | src/App.js:170 | the fired timer leaves the queue and the others stay; its callback alerts the target, and a callback for `undefined` changes nothing |
| AppState.App.HandleUpdateGoal | src/App.js:132-163 | on success: goal update with the pending goal and priority; one timer queued for the id (or for `undefined` if unknown) with the pending priority's countdown; pending goal and priority reset to `""` and `"low"`. On failure: nothing changes |
| AppState.App.HandleAddStudentSubmit | src/App.js:189-205 | on success the server's record is appended at the end and the pending name is cleared; on failure nothing changes |
| AppState.App.HandleDeleteStudent | src/App.js:208-224 | on success the records with the id are filtered out and the timers stay; on failure nothing changes |
| AppState.App.HandleReset | src/App.js:279-299 | `students` becomes the reset list; the timers stay |
| AppState.App.ToggleExpand | src/App.js:302-319 | `found` exactly when a record has the id; then `students` becomes the toggled list, otherwise nothing changes |

## Left out

- The `fetch` calls of `src/services/students-api-service.js` and their HTTP
  error handling are network I/O. Each call is reduced to its outcome, the
  `saved` parameter.
- The time between issuing a persistence call and its resolution is not
  modelled. `handleUpdateGoal` reads `minigoal` and `priority` when it sends
  the update and stores those in the record (src/App.js:135, 143). When the
  update resolves it reads `students`, and reads `priority` a second time
  for the countdown (src/App.js:147). A priority change in between makes
  the stored priority and the countdown disagree. In the model both come
  from the state at the time of the call, so they always agree.
- `setTimeout` timing and the wall clock are not modelled. Each queued
  timer records its delay, but `FireTimer` may fire any queued timer at any
  `now`. The clock does not tie the delay to the firing time or decide the
  firing order.
- `setError`/`clearError` and the `error`/`hasError` fields only drive an
  error display, so the `.catch` branches are modelled as leaving the
  modelled state unchanged.
- Authentication, tokens, the idle logout and sign-up are foreign services
  and DOM form fields. This covers `componentDidMount`, `logoutFromIdle`,
  `handleSignUpSubmit`, and the `username`, `user_id` and `loggedIn`
  fields with their setters.
- `setNewStudent` is not handed to any view through the context, so it is
  not modelled.
- JSX rendering, list keys, CSS class selection and routing are left out.
  So are the AddStudent, SignUpForm and Footer components and Main's
  `componentDidMount`.
- AppState.App.HandleAddStudentSubmit: the source appends the server's
  record as it arrives, without the `expand`, `alert` and `order` fields.
  Its `order` is then `undefined`, and `undefined !== 0` would place it
  among the escalated records. The model takes a complete `Student` from
  the caller.
- Ordering.SortByOrder: the engine's sort is replaced by an insertion sort
  driven by the same comparator. For a comparator that never answers 0,
  ECMAScript leaves the order of equal `order` values
  implementation-defined. In the model, two tied records keep
  their stored order (`TiesKeepStoredOrder`); V8's TimSort does not promise that and may
  reverse them. `OrderedUnique` shows that ties are the only freedom, and
  `OrderedIdempotent` holds only because of this tie choice.
- Students.Hydrate: the source sets the fields on the fetched objects in
  place. The model builds new values, so aliasing of the fetched array is
  not captured.
