/** The attendance record: `state.attendance`, date to class name to
    student name to presence. */
module Attendance {
  import opened Wrappers
  import opened OrderedMap

  /** One student's presence flags for one class on one date. */
  type Presence = OMap<string, bool>

  /** Every class recorded on one date. */
  type Day = OMap<string, Presence>

  /** Every date with at least one record. */
  type Record = OMap<string, Day>

  /** One row of the attendance sheet: the student name shown beside a
      checkbox, and whether the box is ticked. */
  datatype Row = Row(name: string, checked: bool)

  /** Every object in the record, at every level, is a valid dictionary. */
  ghost predicate RecordValid(a: Record) {
    && Valid(a)
    && (forall d :: d in a.items ==> Valid(a.items[d]))
    && (forall d, c :: d in a.items && c in a.items[d].items ==> Valid(a.items[d].items[c]))
  }

  /** The position of the last row carrying `name`. */
  function LastIndex(rows: seq<Row>, name: string): (r: Option<nat>)
    ensures r.Some? ==> r.value < |rows| && rows[r.value].name == name
    ensures r.Some? ==> forall j :: r.value < j < |rows| ==> rows[j].name != name
    ensures r.None? <==> forall j :: 0 <= j < |rows| ==> rows[j].name != name
  {
    if rows == [] then None
    else if rows[|rows| - 1].name == name then Some(|rows| - 1)
    else LastIndex(rows[..|rows| - 1], name)
  }

  /** The presence saved for `name` by rows read top to bottom: the flag of
      the last row carrying that name, or nothing when no row does. */
  function LastFlag(rows: seq<Row>, name: string): Option<bool> {
    match LastIndex(rows, name)
    case Some(i) => Some(rows[i].checked)
    case None => None
  }

  /** The presence object the save handler fills: starting from `{}`, each
      row in turn assigns its checkbox state to its name. A later row with
      the same name overwrites the earlier one; names are listed in the
      order they first appear. */
  function PresenceOf(rows: seq<Row>): (p: Presence)
    ensures Valid(p)
    ensures forall n :: Get(p, n) == LastFlag(rows, n)
  {
    if rows == [] then Empty()
    else
      var last := rows[|rows| - 1];
      Put(PresenceOf(rows[..|rows| - 1]), last.name, last.checked)
  }

  /** The names of the rows, top to bottom. */
  function RowNames(rows: seq<Row>): seq<string> {
    seq(|rows|, i requires 0 <= i < |rows| => rows[i].name)
  }

  /** The presence object has an entry for exactly the names of the rows. */
  lemma PresenceNames(rows: seq<Row>, x: string)
    ensures x in PresenceOf(rows).items <==> x in RowNames(rows)
  {
    assert Get(PresenceOf(rows), x) == LastFlag(rows, x);
    var k := LastIndex(rows, x);
    if k.Some? {
      assert RowNames(rows)[k.value] == x;
    }
    if x in RowNames(rows) {
      var i :| 0 <= i < |rows| && RowNames(rows)[i] == x;
      assert rows[i].name == x;
    }
  }

  /** The names of all rows are those of all but the last, then the last. */
  lemma RowNamesLast(rows: seq<Row>)
    requires rows != []
    ensures RowNames(rows) == RowNames(rows[..|rows| - 1]) + [rows[|rows| - 1].name]
  {
  }

  /** The presence object lists the names in the order each first appears
      among the rows. */
  lemma {:induction false} PresenceOrder(rows: seq<Row>, x: string, y: string)
    requires x in RowNames(rows) && y in RowNames(rows)
    ensures x in PresenceOf(rows).keys && y in PresenceOf(rows).keys
    ensures IndexOf(PresenceOf(rows).keys, x) < IndexOf(PresenceOf(rows).keys, y)
      <==> IndexOf(RowNames(rows), x) < IndexOf(RowNames(rows), y)
  {
    PresenceNames(rows, x);
    PresenceNames(rows, y);
    var rows0 := rows[..|rows| - 1];
    var z := rows[|rows| - 1].name;
    var v := rows[|rows| - 1].checked;
    var p0 := PresenceOf(rows0);
    var ns0 := RowNames(rows0);
    RowNamesLast(rows);
    PresenceNames(rows0, x);
    PresenceNames(rows0, y);
    PresenceNames(rows0, z);
    if x in ns0 && y in ns0 {
      PresenceOrder(rows0, x, y);
    }
    PutFollows(p0, ns0, z, v, x, y);
  }

  /** `state.attendance[date]?.[className]` */
  function SavedPresence(a: Record, d: string, c: string): (p: Option<Presence>)
    ensures p.Some? <==> d in a.items && c in a.items[d].items
    ensures p.Some? ==> p.value == a.items[d].items[c]
  {
    match Get(a, d)
    case None => None
    case Some(day) => Get(day, c)
  }

  /** Every recorded date has at least one class. */
  ghost predicate DaysPopulated(a: Record) {
    forall d :: d in a.items ==> |a.items[d].keys| > 0
  }

  /** The record after `attendance[d] ??= {}; attendance[d][c] = p`: the
      presence of class `c` on date `d` is `p`, whatever it was; every
      other class on that date and every other date keep theirs; a new
      date goes to the end of the calendar order, and a new class to the
      end of its date's class order. */
  function Replace(a: Record, d: string, c: string, p: Presence): (a': Record)
    requires RecordValid(a) && Valid(p)
    ensures RecordValid(a')
    ensures SavedPresence(a', d, c) == Some(p)
    ensures forall c' :: c' != c ==> SavedPresence(a', d, c') == SavedPresence(a, d, c')
    ensures forall d' :: d' != d ==> Get(a', d') == Get(a, d')
    ensures d in a.items ==> a'.keys == a.keys
    ensures d !in a.items ==> a'.keys == a.keys + [d]
    ensures SavedPresence(a, d, c).Some? ==> a'.items[d].keys == a.items[d].keys
    ensures SavedPresence(a, d, c).None? ==> a'.items[d].keys == Get(a, d).GetOr(Empty()).keys + [c]
  {
    var day := Get(a, d).GetOr(Empty());
    Put(a, d, Put(day, c, p))
  }

  /** A replacement adds no empty date, and the only class it can add to
      any date is `c` on `d`. */
  lemma ReplaceAddsOnly(a: Record, d: string, c: string, p: Presence)
    requires RecordValid(a) && Valid(p)
    ensures DaysPopulated(a) ==> DaysPopulated(Replace(a, d, c, p))
    ensures var a' := Replace(a, d, c, p);
      forall d', c' :: d' in a'.items && c' in a'.items[d'].items ==>
        (d' == d && c' == c) || (d' in a.items && c' in a.items[d'].items)
  {
    var a' := Replace(a, d, c, p);
    assert d in a'.items && c in a'.items[d].items;
  }

  /** The dates the calendar marks: every date of the record, each once. */
  function MarkedDates(a: Record): (ds: seq<string>)
    requires Valid(a)
    ensures Distinct(ds)
    ensures forall d :: d in ds <==> d in a.items
  {
    a.keys
  }

  /** Replacing the same class on the same date twice is replacing it once
      with the second presence object. */
  lemma ReplaceTwice(a: Record, d: string, c: string, p1: Presence, p2: Presence)
    requires RecordValid(a) && Valid(p1) && Valid(p2)
    ensures Replace(Replace(a, d, c, p1), d, c, p2) == Replace(a, d, c, p2)
  {
    var day := Get(a, d).GetOr(Empty());
    PutPut(day, c, p1, p2);
    PutPut(a, d, Put(day, c, p1), Put(day, c, p2));
  }

  /** A row whose name no other row carries decides that name's flag. */
  lemma OnlyRowFlag(rows: seq<Row>, i: int)
    requires 0 <= i < |rows|
    requires forall j :: 0 <= j < |rows| && j != i ==> rows[j].name != rows[i].name
    ensures LastFlag(rows, rows[i].name) == Some(rows[i].checked)
  {
  }
}
