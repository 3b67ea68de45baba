/** The App component's state (src/App.js) and the handlers that replace it
    through `setState`.  Each handler's new `students` array is one of the
    pure computations of module Students; the persistence calls of
    handleUpdateGoal, handleAddStudentSubmit and handleDeleteStudent are
    represented by a `saved` flag that selects their `.then` or `.catch`
    branch. */
module AppState {
  import opened Students
  import Ordering

  /** A callback queued by handleTimer's `setTimeout`: the `studentId`
      argument it will call handleAlert with (`None` where the source passes
      `undefined`) and its delay in milliseconds.  The source keeps no
      handle, so nothing ever removes a queued timer before it fires. */
  datatype Timer = Timer(target: Option<StudentId>, delay: nat)

  class App {
    var students: seq<Student>
    var minigoal: string
    var priority: string
    var newStudentName: string
    /** The timers queued and not yet fired. */
    var timers: seq<Timer>

    /** updatePriority never stores the empty string, and every other
        assignment to `priority` stores "low".  Only HandleUpdateGoal
        requires it, and only to re-establish it; no other contract
        depends on `priority != ""`. */
    ghost predicate Valid()
      reads this`priority
    {
      priority != ""
    }

    constructor ()
      ensures Valid()
      ensures students == [] && minigoal == "" && priority == "low"
      ensures newStudentName == "" && timers == []
    {
      students := [];
      minigoal := "";
      priority := "low";
      newStudentName := "";
      timers := [];
    }

    /** setStudents: load the fetched records with the UI defaults. */
    method SetStudents(fetched: seq<Student>)
      modifies this`students
      ensures students == Hydrate(fetched)
    {
      students := Hydrate(fetched);
    }

    method UpdateMiniGoal(goal: string)
      modifies this`minigoal
      ensures minigoal == goal
    {
      minigoal := goal;
    }

    /** updatePriority: an empty selection falls back to "low". */
    method UpdatePriority(p: string)
      modifies this`priority
      ensures Valid()
      ensures priority == NormalizePriority(p)
    {
      priority := NormalizePriority(p);
    }

    method UpdateNewStudentName(name: string)
      modifies this`newStudentName
      ensures newStudentName == name
    {
      newStudentName := name;
    }

    /** handleTimer: queue handleAlert for the student after the priority's
        countdown. */
    method HandleTimer(target: Option<StudentId>, p: string)
      modifies this`timers
      ensures timers == old(timers) + [Timer(target, Duration(p))]
    {
      timers := timers + [Timer(target, Duration(p))];
    }

    /** handleAlert: the timer callback, stamping the record with `now`. */
    method HandleAlert(id: StudentId, now: Timestamp)
      modifies this`students
      ensures students == AlertStudents(old(students), id, now)
    {
      students := AlertStudents(students, id, now);
    }

    /** The runtime firing the `k`-th queued timer at time `now`: the timer
        leaves the queue and its callback runs.  A callback for `undefined`
        finds no record and leaves the list as it was. */
    method FireTimer(k: nat, now: Timestamp)
      requires k < |timers|
      modifies this`students, this`timers
      ensures timers == old(timers[..k] + timers[k + 1..])
      ensures old(timers[k].target).None? ==> students == old(students)
      ensures old(timers[k].target).Some? ==>
        students == AlertStudents(old(students), old(timers[k].target.value), now)
    {
      var fired := timers[k];
      timers := timers[..k] + timers[k + 1..];
      if fired.target.Some? {
        HandleAlert(fired.target.value, now);
      }
    }

    /** handleUpdateGoal: on a saved update the record with the id takes the
        pending goal and priority, a timer is queued for it with the pending
        priority's countdown, and the pending goal and priority are cleared.
        When no record has the id, the timer is queued for `undefined`.
        A failed update changes nothing modelled here. */
    method HandleUpdateGoal(id: StudentId, saved: bool)
      requires Valid()
      modifies this`students, this`minigoal, this`priority, this`timers
      ensures Valid()
      ensures saved ==>
        students == GoalStudents(old(students), id, old(minigoal), old(priority)) &&
        timers == old(timers) + [Timer(if Find(old(students), id).Some? then Some(id) else None,
                                       Duration(old(priority)))] &&
        minigoal == "" && priority == "low"
      ensures !saved ==>
        students == old(students) && timers == old(timers) &&
        minigoal == old(minigoal) && priority == old(priority)
    {
      if saved {
        var found := Find(students, id);
        var updated := GoalStudents(students, id, minigoal, priority);
        HandleTimer(if found.Some? then Some(id) else None, priority);
        students := updated;
        minigoal := "";
        priority := "low";
      }
    }

    /** handleAddStudentSubmit: on a saved post, the record the server
        returned is appended and the pending name is cleared. */
    method HandleAddStudentSubmit(created: Student, saved: bool)
      modifies this`students, this`newStudentName
      ensures saved ==> students == old(students) + [created] && newStudentName == ""
      ensures !saved ==> students == old(students) && newStudentName == old(newStudentName)
    {
      if saved {
        students := students + [created];
        newStudentName := "";
      }
    }

    /** handleDeleteStudent: on a saved delete, the records with the id are
        filtered out.  Queued timers are left alone. */
    method HandleDeleteStudent(id: StudentId, saved: bool)
      modifies this`students
      ensures saved ==> students == RemoveStudent(old(students), id)
      ensures !saved ==> students == old(students)
    {
      if saved {
        students := RemoveStudent(students, id);
      }
    }

    /** handleReset: every record back to its defaults.  Queued timers are
        left alone, so they can still alert a reset record. */
    method HandleReset()
      modifies this`students
      ensures students == ResetAll(old(students))
    {
      students := ResetAll(students);
    }

    /** toggleExpand: `found` is false where the source throws because no
        record has the id; the state is then unchanged. */
    method ToggleExpand(id: StudentId) returns (found: bool)
      modifies this`students
      ensures found <==> exists i :: 0 <= i < |old(students)| && old(students)[i].id == id
      ensures found ==> students == ToggleStudents(old(students), id).value
      ensures !found ==> students == old(students)
    {
      var toggled := ToggleStudents(students, id);
      found := toggled.Some?;
      if found {
        students := toggled.value;
      }
    }
  }

  /** A check-in as the views drive it: a high-priority goal is saved, its
      timer fires after 300000 ms, and the student is displayed first. */
  method CheckInScenario() {
    var app := new App();
    var ann := Student(1, "Ann", "", "", false, false, 0);
    var ben := Student(2, "Ben", "", "", false, false, 0);
    app.SetStudents([ann, ben]);
    app.UpdateMiniGoal("read 10 pages");
    app.UpdatePriority("high");
    var hydrated := app.students;
    assert UniqueIds(hydrated);
    FindUnique(hydrated, 1, 0);
    app.HandleUpdateGoal(1, true);
    assert app.timers == [Timer(Some(1), 300000)];

    var goalSet := app.students;
    assert goalSet[1] == hydrated[1] && goalSet[0].id == 1;
    FindUnique(goalSet, 1, 0);
    app.FireTimer(0, 300000);
    var alerted := app.students;
    var first := goalSet[0].(alert := true, order := 300000);
    assert alerted == [first, hydrated[1]];
    AlertedShownFirst(first, hydrated[1]);
  }

  /** An alerted record stored before a waiting one is displayed first. */
  lemma AlertedShownFirst(alerted: Student, waiting: Student)
    requires alerted.order != 0 && waiting.order == 0
    ensures Ordering.Render(Some([alerted, waiting])) == [alerted, waiting]
  {
    Ordering.OrderedFixpoint([alerted], [waiting]);
  }

  /** Expanding an alerted student silences the alert and keeps the stamp;
      collapsing again drops the stamp. */
  method ExpandScenario() {
    var app := new App();
    app.SetStudents([Student(1, "Ann", "", "", false, false, 0)]);
    var hydrated := app.students;
    FindUnique(hydrated, 1, 0);
    app.HandleAlert(1, 300000);
    var alerted := app.students;
    FindUnique(alerted, 1, 0);
    var found := app.ToggleExpand(1);
    assert found && app.students[0].expand && !app.students[0].alert && app.students[0].order == 300000;
    var expanded := app.students;
    FindUnique(expanded, 1, 0);
    found := app.ToggleExpand(1);
    assert found && !app.students[0].expand && app.students[0].order == 0;
    found := app.ToggleExpand(7);
    assert !found;
  }

  /** A reset does not stop a timer queued before it: the timer still fires
      and alerts the reset record. */
  method StaleTimerScenario() {
    var app := new App();
    var ann := Student(1, "Ann", "", "", false, false, 0);
    app.SetStudents([ann]);
    app.UpdateMiniGoal("finish worksheet");
    var hydrated := app.students;
    FindUnique(hydrated, 1, 0);
    app.HandleUpdateGoal(1, true);
    app.HandleReset();
    assert app.timers == [Timer(Some(1), 1200000)];
    var reset := app.students;
    assert reset[0].alert == false;
    FindUnique(reset, 1, 0);
    app.FireTimer(0, 1500000);
    assert app.students[0].alert && app.timers == [];
  }
}
