/** The roster: `state.classes`, class name to the ordered list of the
    students enrolled in it. */
module Roster {
  import opened Wrappers
  import opened Strings
  import opened OrderedMap

  /** `{ name, id }`; the id is the empty string when none was given. */
  datatype Student = Student(name: string, id: string)

  type Classes = OMap<string, seq<Student>>

  /** The class a student is filed under when the class field is blank. */
  const UnnamedClass: string := "Unnamed Class"

  /** Every class on the roster has at least one student: classes come into
      being only by enrolling someone into them. */
  ghost predicate Populated(r: Classes) {
    forall c :: c in r.items ==> |r.items[c]| > 0
  }

  /** The roster shape every handler can rely on. */
  ghost predicate WellFormed(r: Classes) {
    Valid(r) && Populated(r)
  }

  /** The names of a list of students, in order. */
  function NamesOf(ss: seq<Student>): seq<string> {
    seq(|ss|, i requires 0 <= i < |ss| => ss[i].name)
  }

  /** The names the class drop-down offers, in creation order, each once. */
  function ClassNames(r: Classes): (cs: seq<string>)
    requires Valid(r)
    ensures Distinct(cs)
    ensures forall c :: c in cs <==> c in r.items
  {
    r.keys
  }

  /** The students of a class in enrollment order; none for an unknown
      class. */
  function Students(r: Classes, c: string): seq<Student> {
    if c in r.items then r.items[c] else []
  }

  /** The class an enrollment goes to: the trimmed class field, or
      `UnnamedClass` when the field is blank. Never empty. */
  function TargetClass(classField: string): (c: string)
    ensures c != []
    ensures IsBlank(classField) ==> c == UnnamedClass
    ensures !IsBlank(classField) ==> c == Trim(classField)
  {
    if IsBlank(classField) then UnnamedClass else Trim(classField)
  }

  /** Creates the class when absent and appends the student to it. */
  function AddStudent(r: Classes, c: string, st: Student): (r': Classes)
    requires Valid(r)
    ensures Valid(r')
    ensures Students(r', c) == Students(r, c) + [st]
    ensures forall c' :: c' != c ==> Get(r', c') == Get(r, c')
    ensures c in r.items ==> r'.keys == r.keys
    ensures c !in r.items ==> r'.keys == r.keys + [c]
    ensures Populated(r) ==> Populated(r')
  {
    Put(r, c, Students(r, c) + [st])
  }

  /** How the roster list shows a student: `name (id)` when the student has
      an id, the bare name otherwise. */
  function Label(st: Student): (s: string)
    ensures s == st.name <==> st.id == []
    ensures st.id != [] ==> s == st.name + " (" + st.id + ")"
  {
    if st.id != [] then st.name + " (" + st.id + ")" else st.name
  }

  /** `students.find(s => s.name === name)`: the position of the first
      student with that name. */
  function FindFirst(ss: seq<Student>, name: string): (r: Option<nat>)
    ensures r.Some? ==> r.value < |ss| && ss[r.value].name == name
    ensures r.Some? ==> forall j :: 0 <= j < r.value ==> ss[j].name != name
    ensures r.None? <==> forall j :: 0 <= j < |ss| ==> ss[j].name != name
  {
    if ss == [] then None
    else if ss[0].name == name then Some(0)
    else match FindFirst(ss[1..], name)
      case None => None
      case Some(i) => Some(i + 1)
  }

  /** How the overview shows a student recorded in class `c`: the first
      roster student of that name, labelled with its id when it has one,
      or the bare name when no student of the class has that name. */
  function DisplayName(r: Classes, c: string, name: string): (s: string)
    requires c in r.items
    ensures s == name <==>
      (FindFirst(r.items[c], name).None? || r.items[c][FindFirst(r.items[c], name).value].id == [])
    ensures s != name ==> s == name + " (" + r.items[c][FindFirst(r.items[c], name).value].id + ")"
  {
    match FindFirst(r.items[c], name)
    case None => name
    case Some(i) => Label(r.items[c][i])
  }
}
