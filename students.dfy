/** The student records of the check-in client and the pure list computations
    that the App component's handlers build their new `students` array with
    (`map`, `filter`, `find` and object spread in src/App.js). */
module Students {

  datatype Option<T> = None | Some(value: T)

  type StudentId = int

  /** The `new Date()` stamped into `order` when a timer expires.  A Date object
      is never `=== 0`, so a stamp is modelled as a positive integer. */
  type Timestamp = t: int | t > 0 witness 1

  /** One entry of `App.state.students`: the fields the server stores
      (`id`, `name`, `goal`, `priority`) and the UI fields the client adds
      (`expand`, `alert`, `order`).  `order == 0` means "not escalated". */
  datatype Student = Student(
    id: StudentId,
    name: string,
    goal: string,
    priority: string,
    expand: bool,
    alert: bool,
    order: int)

  /** No two records share an id (the server assigns ids). */
  ghost predicate UniqueIds(s: seq<Student>) {
    forall i, j :: 0 <= i < j < |s| ==> s[i].id != s[j].id
  }

  /** `a` can be obtained from `b` by dropping elements: relative order is kept. */
  ghost predicate IsSubsequence(a: seq<Student>, b: seq<Student>)
    decreases |b|
  {
    if a == [] then true
    else if b == [] then false
    else (a[0] == b[0] && IsSubsequence(a[1..], b[1..])) || IsSubsequence(a, b[1..])
  }

  // ---------------------------------------------------------------------
  // Array primitives used by the handlers
  // ---------------------------------------------------------------------

  /** `students.find(student => student.id === id)`: the first record with that id. */
  function Find(s: seq<Student>, id: StudentId): (r: Option<Student>)
    ensures r.None? <==> forall i :: 0 <= i < |s| ==> s[i].id != id
    ensures r.Some? ==>
      exists k :: 0 <= k < |s| && s[k] == r.value && s[k].id == id &&
        forall j :: 0 <= j < k ==> s[j].id != id
  {
    if s == [] then None
    else if s[0].id == id then Some(s[0])
    else
      var r := Find(s[1..], id);
      if r.Some? then
        ghost var k :| 0 < k + 1 <= |s| - 1 && s[1..][k] == r.value && s[1..][k].id == id &&
          forall j :: 0 <= j < k ==> s[1..][j].id != id;
        assert s[k + 1] == r.value;
        assert forall j :: 0 <= j < k + 1 ==> s[j].id != id by {
          forall j | 0 <= j < k + 1 ensures s[j].id != id {
            if j > 0 { assert s[j] == s[1..][j - 1]; }
          }
        }
        r
      else r
  }

  /** `students.map(student => student.id !== id ? student : x)`. */
  function ReplaceById(s: seq<Student>, id: StudentId, x: Student): (r: seq<Student>)
    ensures |r| == |s|
    ensures forall i :: 0 <= i < |s| && s[i].id != id ==> r[i] == s[i]
    ensures forall i :: 0 <= i < |s| && s[i].id == id ==> r[i] == x
  {
    if s == [] then []
    else [if s[0].id != id then s[0] else x] + ReplaceById(s[1..], id, x)
  }

  /** `students.filter(keep)`. */
  function Filter(s: seq<Student>, keep: Student -> bool): (r: seq<Student>)
    ensures |r| <= |s|
    ensures forall i :: 0 <= i < |r| ==> keep(r[i])
  {
    if s == [] then []
    else if keep(s[0]) then [s[0]] + Filter(s[1..], keep)
    else Filter(s[1..], keep)
  }

  /** A filter keeps each record it accepts as often as it occurs, and no other. */
  lemma {:induction false} FilterCount(s: seq<Student>, keep: Student -> bool)
    ensures forall x :: multiset(Filter(s, keep))[x] == if keep(x) then multiset(s)[x] else 0
  {
    if s != [] {
      FilterCount(s[1..], keep);
      assert s == [s[0]] + s[1..];
    }
  }

  /** A filter keeps the relative order of what it keeps. */
  lemma {:induction false} FilterOrder(s: seq<Student>, keep: Student -> bool)
    ensures IsSubsequence(Filter(s, keep), s)
  {
    if s != [] {
      FilterOrder(s[1..], keep);
      var rest := Filter(s[1..], keep);
      if keep(s[0]) {
        assert ([s[0]] + rest)[1..] == rest;
      }
    }
  }

  // ---------------------------------------------------------------------
  // Scalar rules
  // ---------------------------------------------------------------------

  /** updatePriority: the radio value, with the empty string read as "low". */
  function NormalizePriority(p: string): (r: string)
    ensures r != ""
    ensures p != "" ==> r == p
    ensures p == "" ==> r == "low"
  {
    if p == "" then "low" else p
  }

  /** handleTimer: the countdown in milliseconds for a priority string. */
  function Duration(priority: string): (ms: nat)
    ensures ms == 300000 <==> priority == "high"
    ensures ms == 600000 <==> priority == "medium"
    ensures ms == 1200000 <==> priority != "high" && priority != "medium"
  {
    if priority == "high" then 300000 else if priority == "medium" then 600000 else 1200000
  }

  /** A more urgent priority never waits longer: "high" is the shortest
      countdown, "medium" the next, and every other string, including the
      "low" that updatePriority stores for an empty selection, the longest. */
  lemma DurationByUrgency(p: string)
    ensures Duration("high") <= Duration(p) <= Duration(NormalizePriority(""))
    ensures p != "high" ==> Duration("medium") <= Duration(p)
  {
  }

  // ---------------------------------------------------------------------
  // The new `students` array of each handler
  // ---------------------------------------------------------------------

  /** setStudents: every fetched record gets the UI defaults and priority "low". */
  function Hydrate(fetched: seq<Student>): (r: seq<Student>)
    ensures |r| == |fetched|
    ensures forall i :: 0 <= i < |r| ==>
      r[i].id == fetched[i].id && r[i].name == fetched[i].name && r[i].goal == fetched[i].goal &&
      r[i].priority == "low" && !r[i].expand && !r[i].alert && r[i].order == 0
  {
    if fetched == [] then []
    else
      [fetched[0].(expand := false, alert := false, order := 0, priority := "low")]
        + Hydrate(fetched[1..])
  }

  /** handleReset: `resetStudents` rebuilds each record from its id and name. */
  function ResetAll(s: seq<Student>): (r: seq<Student>)
    ensures |r| == |s|
    ensures forall i :: 0 <= i < |r| ==>
      r[i].id == s[i].id && r[i].name == s[i].name && r[i].goal == "" &&
      r[i].priority == "low" && !r[i].expand && !r[i].alert && r[i].order == 0
  {
    if s == [] then []
    else [Student(s[0].id, s[0].name, "", "low", false, false, 0)] + ResetAll(s[1..])
  }

  /** handleAlert: the first record with the id, alerted and stamped, replaces
      every record with that id.  With no such record nothing is replaced. */
  function AlertStudents(s: seq<Student>, id: StudentId, now: Timestamp): (r: seq<Student>)
    ensures |r| == |s|
    ensures forall i :: 0 <= i < |s| && s[i].id != id ==> r[i] == s[i]
    ensures forall i :: 0 <= i < |s| && s[i].id == id ==> r[i].alert && r[i].order == now
  {
    match Find(s, id)
    case None => s
    case Some(x) => ReplaceById(s, id, x.(alert := true, order := now))
  }

  /** The record toggleExpand builds: `expand` flipped, `alert` silenced, and
      `order` kept only while the record was alerted. */
  function Toggled(x: Student): (r: Student)
    ensures r.id == x.id && r.name == x.name && r.goal == x.goal && r.priority == x.priority
    ensures r.expand != x.expand && !r.alert
    ensures r.order != 0 ==> x.alert && r.order == x.order
  {
    x.(expand := !x.expand, alert := false, order := if !x.alert then 0 else x.order)
  }

  /** toggleExpand: `None` when no record has the id, where the source
      dereferences the `undefined` that `find` returned and throws. */
  function ToggleStudents(s: seq<Student>, id: StudentId): (r: Option<seq<Student>>)
    ensures r.None? <==> forall i :: 0 <= i < |s| ==> s[i].id != id
    ensures r.Some? ==> |r.value| == |s|
  {
    match Find(s, id)
    case None => None
    case Some(x) => Some(ReplaceById(s, id, Toggled(x)))
  }

  /** The success branch of handleUpdateGoal: the pending goal and priority
      are spread over the first matching record, which is collapsed and
      un-escalated; `alert` is left as it was. */
  function GoalStudents(s: seq<Student>, id: StudentId, goal: string, priority: string): (r: seq<Student>)
    ensures |r| == |s|
    ensures forall i :: 0 <= i < |s| && s[i].id != id ==> r[i] == s[i]
    ensures forall i :: 0 <= i < |s| && s[i].id == id ==> r[i].order == 0 && !r[i].expand
  {
    match Find(s, id)
    case None => s
    case Some(x) => ReplaceById(s, id, x.(goal := goal, priority := priority, expand := false, order := 0))
  }

  /** The success branch of handleDeleteStudent. */
  function RemoveStudent(s: seq<Student>, id: StudentId): (r: seq<Student>)
    ensures |r| <= |s|
    ensures forall i :: 0 <= i < |r| ==> r[i].id != id
  {
    Filter(s, (x: Student) => x.id != id)
  }

  // ---------------------------------------------------------------------
  // Properties of the handlers
  // ---------------------------------------------------------------------

  /** With unique ids, `find` returns the one record that has the id. */
  lemma FindUnique(s: seq<Student>, id: StudentId, i: int)
    requires UniqueIds(s) && 0 <= i < |s| && s[i].id == id
    ensures Find(s, id) == Some(s[i])
  {
  }

  /** handleAlert changes only the records with the id: each becomes alerted
      with `order == now`, keeping its identity; every other record and every
      position stay as they were; an unknown id leaves the list unchanged. */
  lemma AlertSpec(s: seq<Student>, id: StudentId, now: Timestamp)
    ensures |AlertStudents(s, id, now)| == |s|
    ensures forall i :: 0 <= i < |s| && s[i].id != id ==> AlertStudents(s, id, now)[i] == s[i]
    ensures forall i :: 0 <= i < |s| && s[i].id == id ==>
      var r := AlertStudents(s, id, now)[i];
      r.alert && r.order == now && r.id == id
    ensures UniqueIds(s) ==> forall i :: 0 <= i < |s| && s[i].id == id ==>
      AlertStudents(s, id, now)[i] == s[i].(alert := true, order := now)
    ensures (forall i :: 0 <= i < |s| ==> s[i].id != id) ==> AlertStudents(s, id, now) == s
  {
  }

  /** toggleExpand on a known id flips `expand`, clears `alert`, keeps `order`
      exactly when the record was alerted, and changes no other record;
      on an unknown id it fails. */
  lemma ToggleSpec(s: seq<Student>, id: StudentId)
    ensures ToggleStudents(s, id).None? <==> forall i :: 0 <= i < |s| ==> s[i].id != id
    ensures ToggleStudents(s, id).Some? ==>
      var r := ToggleStudents(s, id).value;
      |r| == |s| && forall i :: 0 <= i < |s| && s[i].id != id ==> r[i] == s[i]
    ensures ToggleStudents(s, id).Some? && UniqueIds(s) ==>
      var r := ToggleStudents(s, id).value;
      forall i :: 0 <= i < |s| && s[i].id == id ==>
        r[i].expand == !s[i].expand && !r[i].alert &&
        r[i].order == (if s[i].alert then s[i].order else 0) &&
        r[i].id == s[i].id && r[i].name == s[i].name &&
        r[i].goal == s[i].goal && r[i].priority == s[i].priority
  {
  }

  /** Expanding and then collapsing a record silences its alert and drops its
      escalation: the second toggle finds `alert == false` and zeroes `order`. */
  lemma ExpandThenCollapse(s: seq<Student>, id: StudentId, i: int)
    requires UniqueIds(s) && 0 <= i < |s| && s[i].id == id
    ensures ToggleStudents(s, id).Some?
    ensures ToggleStudents(ToggleStudents(s, id).value, id).Some?
    ensures
      var r := ToggleStudents(ToggleStudents(s, id).value, id).value;
      |r| == |s| && r[i] == s[i].(alert := false, order := 0) &&
      forall j :: 0 <= j < |s| && j != i ==> r[j] == s[j]
  {
  }

  /** The success branch of handleUpdateGoal: the record with the id gets the
      pending goal and priority, `expand == false`, `order == 0`, and keeps
      its id, name and `alert`; every other record is unchanged. */
  lemma GoalSpec(s: seq<Student>, id: StudentId, goal: string, priority: string)
    ensures |GoalStudents(s, id, goal, priority)| == |s|
    ensures forall i :: 0 <= i < |s| && s[i].id != id ==> GoalStudents(s, id, goal, priority)[i] == s[i]
    ensures (forall i :: 0 <= i < |s| ==> s[i].id != id) ==> GoalStudents(s, id, goal, priority) == s
    ensures UniqueIds(s) ==> forall i :: 0 <= i < |s| && s[i].id == id ==>
      var r := GoalStudents(s, id, goal, priority)[i];
      r.goal == goal && r.priority == priority && !r.expand && r.order == 0 &&
      r.alert == s[i].alert && r.id == s[i].id && r.name == s[i].name
  {
  }

  /** Deleting removes exactly the records with the id, with their
      multiplicities, and keeps the others in their relative order. */
  lemma RemoveSpec(s: seq<Student>, id: StudentId)
    ensures forall i :: 0 <= i < |RemoveStudent(s, id)| ==> RemoveStudent(s, id)[i].id != id
    ensures forall x: Student :: x.id != id ==> multiset(RemoveStudent(s, id))[x] == multiset(s)[x]
    ensures IsSubsequence(RemoveStudent(s, id), s)
    ensures (forall i :: 0 <= i < |s| ==> s[i].id != id) ==> RemoveStudent(s, id) == s
  {
    FilterCount(s, (x: Student) => x.id != id);
    FilterOrder(s, (x: Student) => x.id != id);
    if forall i :: 0 <= i < |s| ==> s[i].id != id {
      FilterKeepsAll(s, (x: Student) => x.id != id);
    }
  }

  lemma {:induction false} FilterKeepsAll(s: seq<Student>, keep: Student -> bool)
    requires forall i :: 0 <= i < |s| ==> keep(s[i])
    ensures Filter(s, keep) == s
  {
    if s != [] {
      FilterKeepsAll(s[1..], keep);
    }
  }

  lemma {:induction false} FilterDropsAll(s: seq<Student>, keep: Student -> bool)
    requires forall i :: 0 <= i < |s| ==> !keep(s[i])
    ensures Filter(s, keep) == []
  {
    if s != [] {
      FilterDropsAll(s[1..], keep);
    }
  }

  /** handleReset is idempotent. */
  lemma ResetIdempotent(s: seq<Student>)
    ensures ResetAll(ResetAll(s)) == ResetAll(s)
  {
  }

  /** Reset after hydration equals reset: hydration leaves nothing reset keeps
      besides id and name. */
  lemma ResetAfterHydrate(fetched: seq<Student>)
    ensures ResetAll(Hydrate(fetched)) == ResetAll(fetched)
  {
  }
}
