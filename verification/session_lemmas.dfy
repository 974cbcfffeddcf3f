/** Properties that relate several handler calls: saves replace rather
    than merge, the sheet shows back what was saved, enrollment appends in
    call order, and the calendar marks exactly the saved dates. */
module SessionLemmas {
  import opened Wrappers
  import opened Strings
  import opened OrderedMap
  import opened Roster
  import opened Attendance
  import opened Session
  import opened Names

  /** A second save for the same class and date discards the first: the
      outcome is that of the second save alone. */
  lemma LastSaveWins(s: State, c: string, d: string, rows1: seq<Row>, rows2: seq<Row>)
    requires RecordValid(s.attendance)
    ensures Save(Save(s, c, d, rows1).state, c, d, rows2) == Save(s, c, d, rows2)
  {
    var s1 := Save(s, c, d, rows1).state;
    if SaveAccepted(s.classes, c, d) {
      ReplaceTwice(s.attendance, d, c, PresenceOf(rows1), PresenceOf(rows2));
    }
  }

  /** After a save, the sheet for that class and date ticks each student
      exactly when the last sheet row carrying the student's name was
      ticked. */
  lemma SaveThenSheet(s: State, c: string, d: string, rows: seq<Row>)
    requires RecordValid(s.attendance)
    requires SaveAccepted(s.classes, c, d)
    ensures var sheet := Sheet(Save(s, c, d, rows).state, c, d);
      && |sheet| == |Students(s.classes, c)|
      && forall i :: 0 <= i < |sheet| ==>
           && sheet[i].name == Students(s.classes, c)[i].name
           && (sheet[i].checked <==> LastFlag(rows, sheet[i].name) == Some(true))
  {
  }

  /** Saving a sheet whose rows carry the roster's names, all distinct, in
      roster order, and reopening the sheet, shows exactly those rows. */
  lemma SheetRoundTrip(s: State, c: string, d: string, rows: seq<Row>)
    requires RecordValid(s.attendance)
    requires SaveAccepted(s.classes, c, d)
    requires |rows| == |Students(s.classes, c)|
    requires forall i :: 0 <= i < |rows| ==> rows[i].name == Students(s.classes, c)[i].name
    requires Distinct(NamesOf(Students(s.classes, c)))
    ensures Sheet(Save(s, c, d, rows).state, c, d) == rows
  {
    var sheet := Sheet(Save(s, c, d, rows).state, c, d);
    var ns := NamesOf(Students(s.classes, c));
    SaveThenSheet(s, c, d, rows);
    forall i | 0 <= i < |rows|
      ensures sheet[i] == rows[i]
    {
      forall j | 0 <= j < |rows| && j != i
        ensures rows[j].name != rows[i].name
      {
        assert ns[j] == rows[j].name && ns[i] == rows[i].name;
      }
      OnlyRowFlag(rows, i);
    }
  }

  /** Saving the sheet as shown, untouched, and reopening it shows the same
      sheet, duplicate names included. */
  lemma SaveSheetIdempotent(s: State, c: string, d: string)
    requires RecordValid(s.attendance)
    requires SaveAccepted(s.classes, c, d)
    ensures Sheet(Save(s, c, d, Sheet(s, c, d)).state, c, d) == Sheet(s, c, d)
  {
    var rows := Sheet(s, c, d);
    var sheet := Sheet(Save(s, c, d, rows).state, c, d);
    SaveThenSheet(s, c, d, rows);
    forall i | 0 <= i < |rows|
      ensures sheet[i] == rows[i]
    {
      var k := LastIndex(rows, rows[i].name);
      assert k.Some?;
      assert rows[k.value].checked == rows[i].checked;
    }
  }

  /** The enrollment forms submitted one after another. */
  function EnrollAll(s: State, fs: seq<EnrollForm>): (r: State)
    requires Valid(s.classes)
    ensures Valid(r.classes)
    ensures r.attendance == s.attendance
  {
    if fs == [] then s
    else Enroll(EnrollAll(s, fs[..|fs| - 1]), fs[|fs| - 1]).state
  }

  /** The students the accepted forms among `fs` file under class `c`, in
      submission order. */
  function Arrivals(fs: seq<EnrollForm>, c: string): seq<Student> {
    if fs == [] then []
    else
      Arrivals(fs[..|fs| - 1], c) + Arrival(fs[|fs| - 1], c)
  }

  /** What one form adds to class `c`. */
  function Arrival(f: EnrollForm, c: string): seq<Student> {
    if !IsBlank(f.name) && TargetClass(f.className) == c
    then [Student(Trim(f.name), Trim(f.id))] else []
  }

  /** One form appends its arrival, if any, to class `c`. */
  lemma EnrollStep(s: State, f: EnrollForm, c: string)
    requires Valid(s.classes)
    ensures Students(Enroll(s, f).state.classes, c) == Students(s.classes, c) + Arrival(f, c)
  {
    var r := Enroll(s, f);
    if IsBlank(f.name) {
      assert r.state == s;
      assert Arrival(f, c) == [];
    } else {
      var t := TargetClass(f.className);
      assert r.alert.None?;
      if t != c {
        assert Get(r.state.classes, c) == Get(s.classes, c);
        assert Arrival(f, c) == [];
      } else {
        assert Arrival(f, c) == [Student(Trim(f.name), Trim(f.id))];
      }
    }
  }

  /** The last of a series of forms appends its arrival to class `c`. */
  lemma EnrollLast(s: State, fs: seq<EnrollForm>, c: string)
    requires Valid(s.classes) && fs != []
    ensures Students(EnrollAll(s, fs).classes, c)
      == Students(EnrollAll(s, fs[..|fs| - 1]).classes, c) + Arrival(fs[|fs| - 1], c)
  {
    EnrollStep(EnrollAll(s, fs[..|fs| - 1]), fs[|fs| - 1], c);
  }

  /** Enrollment only appends: after a series of forms, each class lists
      the students it had, then one student per accepted form aimed at it,
      in submission order. */
  lemma {:induction false} EnrollAppendsInOrder(s: State, fs: seq<EnrollForm>, c: string)
    requires Valid(s.classes)
    ensures Students(EnrollAll(s, fs).classes, c) == Students(s.classes, c) + Arrivals(fs, c)
  {
    if fs != [] {
      var fs0 := fs[..|fs| - 1];
      EnrollAppendsInOrder(s, fs0, c);
      EnrollLast(s, fs, c);
      var x, a0, a := Students(s.classes, c), Arrivals(fs0, c), Arrival(fs[|fs| - 1], c);
      assert Arrivals(fs, c) == a0 + a;
      assert x + a0 + a == x + (a0 + a);
    }
  }

  /** The classes the accepted forms among `fs` target, in submission
      order, repeats included. */
  function Targets(fs: seq<EnrollForm>): seq<string> {
    if fs == [] then []
    else
      var f := fs[|fs| - 1];
      Targets(fs[..|fs| - 1]) + (if IsBlank(f.name) then [] else [TargetClass(f.className)])
  }

  /** The class drop-down lists the classes in the order the first form
      aimed at each was accepted: the roster's class order is the
      insertion order of a `Set` fed with the targets of the accepted
      forms. */
  lemma {:induction false} ClassOrder(fs: seq<EnrollForm>)
    ensures ClassNames(EnrollAll(Init(), fs).classes) == Collect(Targets(fs))
  {
    if fs != [] {
      var fs0 := fs[..|fs| - 1];
      var f := fs[|fs| - 1];
      ClassOrder(fs0);
      if IsBlank(f.name) {
        assert Targets(fs) == Targets(fs0);
      } else {
        var c := TargetClass(f.className);
        assert Targets(fs) == Targets(fs0) + [c];
        assert (Targets(fs0) + [c])[..|Targets(fs0) + [c]| - 1] == Targets(fs0);
      }
    }
  }

  /** One request to the save handler: class, date and the sheet rows. */
  datatype SaveRequest = SaveRequest(className: string, date: string, rows: seq<Row>)

  /** The save requests made one after another. */
  function SaveAll(s: State, reqs: seq<SaveRequest>): (r: State)
    requires RecordValid(s.attendance)
    ensures RecordValid(r.attendance)
    ensures r.classes == s.classes
  {
    if reqs == [] then s
    else
      var q := reqs[|reqs| - 1];
      Save(SaveAll(s, reqs[..|reqs| - 1]), q.className, q.date, q.rows).state
  }

  /** The calendar marks a date after a series of saves exactly when it was
      marked before or one of the accepted saves was for that date, in
      whatever order the saves came. */
  lemma {:induction false} MarkedAfterSaves(s: State, reqs: seq<SaveRequest>, d: string)
    requires RecordValid(s.attendance)
    ensures d in MarkedDates(SaveAll(s, reqs).attendance) <==>
      || d in s.attendance.items
      || exists i :: 0 <= i < |reqs| && reqs[i].date == d
           && SaveAccepted(s.classes, reqs[i].className, reqs[i].date)
  {
    if reqs != [] {
      var reqs0 := reqs[..|reqs| - 1];
      MarkedAfterSaves(s, reqs0, d);
      var q := reqs[|reqs| - 1];
      if exists i :: 0 <= i < |reqs0| && reqs0[i].date == d
           && SaveAccepted(s.classes, reqs0[i].className, reqs0[i].date) {
        var i :| 0 <= i < |reqs0| && reqs0[i].date == d
           && SaveAccepted(s.classes, reqs0[i].className, reqs0[i].date);
        assert reqs[i] == reqs0[i];
      }
      if q.date == d && SaveAccepted(s.classes, q.className, q.date) {
        assert reqs[|reqs| - 1] == q;
      }
    }
  }
}
