/** A worked session: two students enrolled into one class, one save, and
    the overview of that day. */
module Scenario {
  import opened Wrappers
  import opened Strings
  import opened OrderedMap
  import opened Roster
  import opened Attendance
  import opened Session
  import opened Stats

  const Ava := EnrollForm("Ava", "CS101", "S1")
  const Ben := EnrollForm("Ben", " CS101 ", "")
  const Marks := [Row("Ava", true), Row("Ben", false)]

  lemma TrimAva() ensures Trim("Ava") == "Ava" { TrimUnchanged("Ava"); }
  lemma TrimS1() ensures Trim("S1") == "S1" { TrimUnchanged("S1"); }
  lemma TrimBen() ensures Trim("Ben") == "Ben" { TrimUnchanged("Ben"); }
  lemma TrimCS101() ensures Trim("CS101") == "CS101" { TrimUnchanged("CS101"); }

  /** The padded class field loses its leading space. */
  lemma TrimStartPadded()
    ensures TrimStart(" CS101 ") == "CS101 "
  {
    assert !IsSpace('C') && IsSpace(' ');
    assert TrimStart("CS101 ") == "CS101 ";
    assert " CS101 "[0] == ' ';
    assert " CS101 "[1..] == "CS101 ";
  }

  /** The padded class field loses its trailing space. */
  lemma TrimEndPadded()
    ensures TrimEnd("CS101 ") == "CS101"
  {
    assert "CS101 "[..5] == "CS101";
    TrimCS101();
  }

  /** The padded class field trims to the class name. */
  lemma TrimPaddedCS101()
    ensures Trim(" CS101 ") == "CS101"
  {
    TrimStartPadded();
    TrimEndPadded();
  }

  /** The trimmed form fields. */
  lemma TrimmedFields()
    ensures Trim("Ava") == "Ava" && Trim("S1") == "S1" && Trim("Ben") == "Ben"
    ensures Trim("CS101") == "CS101" && Trim(" CS101 ") == "CS101" && Trim("") == ""
  {
    TrimAva();
    TrimS1();
    TrimBen();
    TrimCS101();
    TrimPaddedCS101();
  }

  /** An accepted form enrolls its student into its target class. */
  lemma EnrollAccepted(s: State, f: EnrollForm, c: string, st: Student)
    requires Valid(s.classes)
    requires !IsBlank(f.name) && TargetClass(f.className) == c
    requires st == Student(Trim(f.name), Trim(f.id))
    ensures Enroll(s, f) == Step(State(AddStudent(s.classes, c, st), s.attendance), None)
  {
  }

  /** The first student of a new class. */
  lemma AddToEmpty(c: string, a: Student)
    ensures AddStudent(Empty(), c, a) == OMap([c], map[c := [a]])
  {
    var e: Classes := Empty();
    assert e == OMap([], map[]);
    assert c !in e.items;
    assert Students(e, c) + [a] == [a];
    assert e.keys + [c] == [c];
    assert e.items[c := [a]] == map[c := [a]];
    assert AddStudent(e, c, a) == OMap([c], map[c := [a]]);
  }

  /** A second student of a class that has one. */
  lemma AddToSingleton(c: string, a: Student, b: Student)
    ensures AddStudent(OMap([c], map[c := [a]]), c, b) == OMap([c], map[c := [a, b]])
  {
    var m: Classes := OMap([c], map[c := [a]]);
    assert Valid(m);
    assert Students(m, c) + [b] == [a, b];
    assert m.items[c := [a, b]] == map[c := [a, b]];
  }

  /** The roster after Ava's enrollment: CS101 with Ava. */
  lemma RosterAfterAva()
    ensures Enroll(Init(), Ava)
      == Step(State(OMap(["CS101"], map["CS101" := [Student("Ava", "S1")]]), Empty()), None)
  {
    TrimmedFields();
    EnrollAccepted(Init(), Ava, "CS101", Student("Ava", "S1"));
    AddToEmpty("CS101", Student("Ava", "S1"));
  }

  /** The roster after both enrollments: CS101 with Ava then Ben. */
  lemma RosterAfterEnrollment()
    ensures Enroll(Enroll(Init(), Ava).state, Ben).state == Enrolled
  {
    RosterAfterAva();
    TrimmedFields();
    var s1 := State(OMap(["CS101"], map["CS101" := [Student("Ava", "S1")]]), Empty());
    assert Valid(s1.classes);
    EnrollAccepted(s1, Ben, "CS101", Student("Ben", ""));
    AddToSingleton("CS101", Student("Ava", "S1"), Student("Ben", ""));
  }

  /** The presence object the save builds from the two rows. */
  lemma MarksPresence()
    ensures PresenceOf(Marks) == Day
  {
    assert Marks[..1] == [Row("Ava", true)];
    assert Marks[..1][..0] == [];
    assert PresenceOf(Marks[..1]) == OMap(["Ava"], map["Ava" := true]);
  }

  const Enrolled := State(OMap(["CS101"], map["CS101" := [Student("Ava", "S1"), Student("Ben", "")]]), Empty())
  const Day: Presence := OMap(["Ava", "Ben"], map["Ava" := true, "Ben" := false])
  const Saved := State(Enrolled.classes,
    OMap(["2024-03-01"], map["2024-03-01" := OMap(["CS101"], map["CS101" := Day])]))

  /** An accepted save replaces the presence object and raises the
      confirmation. */
  lemma SaveAcceptedStep(s: State, c: string, d: string, rows: seq<Row>)
    requires RecordValid(s.attendance) && SaveAccepted(s.classes, c, d)
    ensures Save(s, c, d, rows)
      == Step(State(s.classes, Replace(s.attendance, d, c, PresenceOf(rows))), Some(AttendanceSaved))
  {
  }

  /** The first save into an empty record. */
  lemma ReplaceInEmpty(d: string, c: string, p: Presence)
    requires Valid(p)
    ensures Replace(Empty(), d, c, p) == OMap([d], map[d := OMap([c], map[c := p])])
  {
    assert [] + [d] == [d];
    assert [] + [c] == [c];
  }

  /** The state after saving the two rows for CS101 on 2024-03-01. */
  lemma StateAfterSave()
    ensures Save(Enrolled, "CS101", "2024-03-01", Marks) == Step(Saved, Some(AttendanceSaved))
  {
    MarksPresence();
    assert SaveAccepted(Enrolled.classes, "CS101", "2024-03-01");
    SaveAcceptedStep(Enrolled, "CS101", "2024-03-01", Marks);
    ReplaceInEmpty("2024-03-01", "CS101", Day);
  }

  /** One of the two recorded students is present. */
  lemma CountOfDay()
    ensures CountTrue(Flags(Day)) == 1
  {
    assert Flags(Day) == [true, false];
    assert [true, false][..1] == [true];
    assert [true][..0] == [];
  }

  /** Ava is shown with her id. */
  lemma ShowAva()
    ensures DisplayName(Saved.classes, "CS101", "Ava") == "Ava (S1)"
  {
    var ss := Saved.classes.items["CS101"];
    assert FindFirst(ss, "Ava") == Some(0);
  }

  /** Ben, who has no id, is shown by name. */
  lemma ShowBen()
    ensures DisplayName(Saved.classes, "CS101", "Ben") == "Ben"
  {
    var ss := Saved.classes.items["CS101"];
    assert ss[1..] == [Student("Ben", "")];
    assert FindFirst(ss, "Ben") == Some(1);
  }

  /** The counts of the CS101 summary of that day. */
  lemma ReportCounts()
    ensures var r := Report(Saved, "CS101", Day);
      r.present == 1 && r.total == 2 && r.percent == 50
  {
    CountOfDay();
    assert Percent(1, 2) == 50;
  }

  /** The lines of the CS101 summary of that day. */
  lemma ReportLines()
    ensures Report(Saved, "CS101", Day).lines == [Line("Ava (S1)", true), Line("Ben", false)]
  {
    ShowAva();
    ShowBen();
    var r := Report(Saved, "CS101", Day);
    assert |r.lines| == 2;
    assert r.lines[0] == Line("Ava (S1)", true);
    assert r.lines[1] == Line("Ben", false);
  }

  /** The CS101 summary of that day. */
  lemma ReportOfDay()
    ensures Report(Saved, "CS101", Day)
      == ClassReport("CS101", 1, 2, 50, [Line("Ava (S1)", true), Line("Ben", false)])
  {
    ReportCounts();
    ReportLines();
  }

  /** The saved state is reachable, so it satisfies the invariant. */
  lemma SavedIsReachable()
    ensures Inv(Saved)
  {
    RosterAfterEnrollment();
    StateAfterSave();
    EnrollPreservesInv(Init(), Ava);
    EnrollPreservesInv(Enroll(Init(), Ava).state, Ben);
    SavePreservesInv(Enrolled, "CS101", "2024-03-01", Marks);
  }

  /** A date with one recorded class has a one-summary overview. */
  lemma SingleClassDay(s: State, d: string, c: string, p: Presence)
    requires Inv(s) && d in s.attendance.items
    requires s.attendance.items[d] == OMap([c], map[c := p])
    ensures c in s.classes.items && Valid(p)
    ensures DayReport(s, d) == Some([Report(s, c, p)])
  {
    var day := s.attendance.items[d];
    assert c in day.items && day.items[c] == p && day.keys == [c];
    assert Valid(day.items[c]);
    var r := DayReport(s, d);
    assert |r.value| == 1;
    assert r.value[0] == Report(s, c, p);
    assert r.value == [Report(s, c, p)];
  }

  /** The overview of 2024-03-01 has the one CS101 summary. */
  lemma DayReportOfSaved()
    ensures Inv(Saved)
    ensures DayReport(Saved, "2024-03-01") == Some([Report(Saved, "CS101", Day)])
  {
    SavedIsReachable();
    SingleClassDay(Saved, "2024-03-01", "CS101", Day);
  }

  /** Ava (id S1) and Ben (no id) join CS101, Ben through a class field
      padded with spaces; on 2024-03-01 Ava is present and Ben absent. The
      overview of that day shows CS101 at one present out of two, 50%, with
      Ava listed as "Ava (S1)" and Ben by name. */
  lemma AvaAndBen()
    ensures
      var s2 := Enroll(Enroll(Init(), Ava).state, Ben).state;
      var s3 := Save(s2, "CS101", "2024-03-01", Marks).state;
      && Inv(s3)
      && DayReport(s3, "2024-03-01") == Some([
           ClassReport("CS101", 1, 2, 50, [Line("Ava (S1)", true), Line("Ben", false)])])
  {
    RosterAfterEnrollment();
    StateAfterSave();
    DayReportOfSaved();
    ReportOfDay();
  }

  /** Three of four present is 75%. */
  lemma ThreeOfFour()
    ensures Percent(3, 4) == 75
  {
  }
}
