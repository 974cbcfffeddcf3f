/** The session state and the two handlers that change it: adding a
    student and saving attendance, with the attendance sheet they share. */
module Session {
  import opened Wrappers
  import opened Strings
  import opened OrderedMap
  import opened Roster
  import opened Attendance

  /** `state`: the roster and the attendance record. */
  datatype State = State(classes: Classes, attendance: Record)

  /** The messages the handlers alert. */
  datatype Alert = NameRequired | NoValidClass | NoDate | AttendanceSaved

  /** What a handler leaves behind: the new state and the alert it raised,
      if any. */
  datatype Step = Step(state: State, alert: Option<Alert>)

  /** The enrollment form's name, class and id fields, as typed. */
  datatype EnrollForm = EnrollForm(name: string, className: string, id: string)

  /** What holds of every state the handlers can reach: every object is a
      valid dictionary, every class has a student, every recorded date has
      a class, and every class recorded on a date is on the roster. */
  ghost predicate Inv(s: State) {
    && WellFormed(s.classes)
    && RecordValid(s.attendance)
    && DaysPopulated(s.attendance)
    && (forall d, c :: d in s.attendance.items && c in s.attendance.items[d].items ==>
          c in s.classes.items)
  }

  /** The state at page load: no classes, no records. */
  function Init(): (s: State)
    ensures Inv(s)
    ensures s.classes.keys == [] && s.attendance.keys == []
  {
    State(Empty(), Empty())
  }

  /** The flag saved for one student of one class on one date, if any. */
  function SavedFlag(a: Record, d: string, c: string, name: string): Option<bool> {
    match SavedPresence(a, d, c)
    case None => None
    case Some(p) => Get(p, name)
  }

  /** The add-student handler. A blank name is refused with an alert and
      changes nothing. Otherwise the trimmed name and id are appended, as
      one new student, to the class named by the trimmed class field, or
      to `UnnamedClass` when that field is blank; the class is created
      when absent and nothing else changes. */
  function Enroll(s: State, f: EnrollForm): (r: Step)
    requires Valid(s.classes)
    ensures r.alert == Some(NameRequired) <==> IsBlank(f.name)
    ensures r.alert.None? <==> !IsBlank(f.name)
    ensures r.alert.Some? ==> r.state == s
    ensures Valid(r.state.classes)
    ensures r.alert.None? ==>
      var c := TargetClass(f.className);
      && Students(r.state.classes, c) == Students(s.classes, c) + [Student(Trim(f.name), Trim(f.id))]
      && Trim(f.name) != []
      && (forall c' :: c' != c ==> Get(r.state.classes, c') == Get(s.classes, c'))
      && (c in s.classes.items ==> r.state.classes.keys == s.classes.keys)
      && (c !in s.classes.items ==> r.state.classes.keys == s.classes.keys + [c])
      && r.state.attendance == s.attendance
    ensures r.alert.None? && IsBlank(f.className) ==>
      Students(r.state.classes, UnnamedClass) ==
        Students(s.classes, UnnamedClass) + [Student(Trim(f.name), Trim(f.id))]
  {
    if IsBlank(f.name) then Step(s, Some(NameRequired))
    else
      var c := TargetClass(f.className);
      Step(State(AddStudent(s.classes, c, Student(Trim(f.name), Trim(f.id))), s.attendance), None)
  }

  /** The attendance sheet for the selected class and date: nothing when
      either is unset or the class has no students; otherwise one row per
      student in roster order, ticked exactly when a save recorded that
      name as present for this class and date. */
  function Sheet(s: State, c: string, d: string): (rows: seq<Row>)
    ensures c == [] || d == [] || |Students(s.classes, c)| == 0 ==> rows == []
    ensures c != [] && d != [] ==>
      && |rows| == |Students(s.classes, c)|
      && forall i :: 0 <= i < |rows| ==>
           && rows[i].name == Students(s.classes, c)[i].name
           && (rows[i].checked <==> SavedFlag(s.attendance, d, c, rows[i].name) == Some(true))
  {
    if c == [] || d == [] then []
    else if |Students(s.classes, c)| == 0 then []
    else
      var saved := SavedPresence(s.attendance, d, c).GetOr(Empty());
      var ss := Students(s.classes, c);
      seq(|ss|, i requires 0 <= i < |ss| => Row(ss[i].name, Get(saved, ss[i].name).GetOr(false)))
  }

  /** Whether the save handler accepts: a class is selected, is on the
      roster and has students, and a date is selected. */
  predicate SaveAccepted(r: Classes, c: string, d: string) {
    c != [] && |Students(r, c)| > 0 && d != []
  }

  /** The save handler, given the rows of the sheet on screen. Without a
      class with students, or without a date, it alerts and changes
      nothing. Otherwise the presence object of the class on that date is
      replaced as a whole by the one the rows build; every other class and
      date, and the roster, are untouched. */
  function Save(s: State, c: string, d: string, rows: seq<Row>): (r: Step)
    requires RecordValid(s.attendance)
    ensures r.alert == Some(NoValidClass) <==> c == [] || |Students(s.classes, c)| == 0
    ensures r.alert == Some(NoDate) <==> c != [] && |Students(s.classes, c)| > 0 && d == []
    ensures r.alert == Some(AttendanceSaved) <==> SaveAccepted(s.classes, c, d)
    ensures r.alert != Some(AttendanceSaved) ==> r.state == s
    ensures r.alert == Some(AttendanceSaved) ==>
      && r.state.classes == s.classes
      && RecordValid(r.state.attendance)
      && SavedPresence(r.state.attendance, d, c) == Some(PresenceOf(rows))
      && (forall c' :: c' != c ==>
            SavedPresence(r.state.attendance, d, c') == SavedPresence(s.attendance, d, c'))
      && (forall d' :: d' != d ==> Get(r.state.attendance, d') == Get(s.attendance, d'))
      && (SavedPresence(s.attendance, d, c).Some? ==>
            r.state.attendance.items[d].keys == s.attendance.items[d].keys)
      && (SavedPresence(s.attendance, d, c).None? ==>
            r.state.attendance.items[d].keys == Get(s.attendance, d).GetOr(Empty()).keys + [c])
      && (d in s.attendance.items ==> MarkedDates(r.state.attendance) == MarkedDates(s.attendance))
      && (d !in s.attendance.items ==>
            MarkedDates(r.state.attendance) == MarkedDates(s.attendance) + [d])
  {
    if c == [] || |Students(s.classes, c)| == 0 then Step(s, Some(NoValidClass))
    else if d == [] then Step(s, Some(NoDate))
    else Step(State(s.classes, Replace(s.attendance, d, c, PresenceOf(rows))), Some(AttendanceSaved))
  }

  /** Enrollment keeps every reachable-state property. */
  lemma EnrollPreservesInv(s: State, f: EnrollForm)
    requires Inv(s)
    ensures Inv(Enroll(s, f).state)
  {
  }

  /** Saving keeps every reachable-state property. */
  lemma SavePreservesInv(s: State, c: string, d: string, rows: seq<Row>)
    requires Inv(s)
    ensures Inv(Save(s, c, d, rows).state)
  {
    ReplaceAddsOnly(s.attendance, d, c, PresenceOf(rows));
  }
}
