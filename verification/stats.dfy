/** What the overview shows for a clicked calendar day: for every class
    recorded on that date, how many students were present out of how many,
    the rounded percentage, and one line per recorded student. */
module Stats {
  import opened Wrappers
  import opened OrderedMap
  import opened Roster
  import opened Attendance
  import opened Session

  /** One student line of a class: its display name and presence mark. */
  datatype Line = Line(text: string, present: bool)

  /** The summary of one class on one date. */
  datatype ClassReport = ClassReport(
    className: string, present: nat, total: nat, percent: nat, lines: seq<Line>)

  /** The flags of the keys `ks` of a presence object, in that order. */
  function FlagsOver(p: Presence, ks: seq<string>): (bs: seq<bool>)
    requires forall k :: k in ks ==> k in p.items
    ensures |bs| == |ks|
    ensures forall i :: 0 <= i < |bs| ==> bs[i] == p.items[ks[i]]
  {
    if ks == [] then [] else FlagsOver(p, ks[..|ks| - 1]) + [p.items[ks[|ks| - 1]]]
  }

  /** The flags of a presence object in key order (`Object.values`). */
  function Flags(p: Presence): seq<bool>
    requires Valid(p)
  {
    FlagsOver(p, p.keys)
  }

  /** `flags.filter(Boolean).length`: how many flags are set. */
  function CountTrue(bs: seq<bool>): (n: nat)
    ensures n <= |bs|
    ensures n == multiset(bs)[true]
    ensures n == |bs| <==> forall i :: 0 <= i < |bs| ==> bs[i]
    ensures n == 0 <==> forall i :: 0 <= i < |bs| ==> !bs[i]
  {
    if bs == [] then 0
    else
      var bs0 := bs[..|bs| - 1];
      assert bs == bs0 + [bs[|bs| - 1]];
      CountTrue(bs0) + (if bs[|bs| - 1] then 1 else 0)
  }

  /** `total > 0 ? Math.round(present / total * 100) : 0`, in exact
      arithmetic: the whole percentage nearest to `present / total`, a tie
      rounded up, and 0 for an empty class. */
  function Percent(present: nat, total: nat): (pc: nat)
    requires present <= total
    ensures pc <= 100
    ensures total == 0 ==> pc == 0
    ensures total > 0 ==> -(total as int) <= 200 * present - 2 * total * pc < total
  {
    if total > 0 then
      var pc := (200 * present + total) / (2 * total);
      PercentBounds(present, total, pc);
      pc
    else 0
  }

  /** Multiplying by a non-negative factor keeps the order. */
  lemma MulMono(a: int, b: int, c: int)
    requires 0 <= a && b <= c
    ensures a * b <= a * c
  {
    assert a * c - a * b == a * (c - b);
  }

  /** Euclidean division pins the quotient between the two bounds. */
  lemma PercentBounds(present: nat, total: nat, pc: int)
    requires 0 < total && present <= total
    requires pc == (200 * present + total) / (2 * total)
    ensures 0 <= pc <= 100
    ensures -(total as int) <= 200 * present - 2 * total * pc < total
  {
    var n := 200 * present + total;
    var m := 2 * total;
    var rem := n % m;
    assert n == m * pc + rem;
    assert 0 <= rem < m;
    assert 2 * total * pc == m * pc;
    if pc > 100 {
      MulMono(m, 101, pc);
      assert false;
    }
    if pc < 0 {
      MulMono(m, pc, -1);
      assert false;
    }
  }

  /** The names recorded as present. */
  ghost function PresentNames(p: Presence): set<string> {
    set n | n in p.items && p.items[n]
  }

  /** The names among `ks` recorded as present. */
  ghost function PresentAmong(p: Presence, ks: seq<string>): set<string> {
    set n | n in ks && n in p.items && p.items[n]
  }

  /** The present flags among the keys `ks` number as many as the present
      names among them. */
  lemma {:induction false} CountMatchesNames(p: Presence, ks: seq<string>)
    requires Distinct(ks)
    requires forall k :: k in ks ==> k in p.items
    ensures CountTrue(FlagsOver(p, ks)) == |PresentAmong(p, ks)|
  {
    if ks != [] {
      var ks0 := ks[..|ks| - 1];
      var k := ks[|ks| - 1];
      assert ks == ks0 + [k];
      CountMatchesNames(p, ks0);
      CountStep(FlagsOver(p, ks0), p.items[k]);
      LastNotInFront(ks);
      PresentStep(p, ks0, k);
    }
  }

  /** Counting one more flag. */
  lemma CountStep(bs: seq<bool>, b: bool)
    ensures CountTrue(bs + [b]) == CountTrue(bs) + (if b then 1 else 0)
  {
    assert (bs + [b])[..|bs|] == bs;
  }

  /** The last element of a sequence without repeats is not among the
      earlier ones. */
  lemma LastNotInFront<T>(s: seq<T>)
    requires Distinct(s) && s != []
    ensures s[|s| - 1] !in s[..|s| - 1]
  {
  }

  /** Adding one key adds its name to the present ones exactly when it is
      marked present. */
  lemma PresentStep(p: Presence, ks0: seq<string>, k: string)
    requires k !in ks0 && k in p.items
    ensures |PresentAmong(p, ks0 + [k])| == |PresentAmong(p, ks0)| + (if p.items[k] then 1 else 0)
  {
    var a := PresentAmong(p, ks0);
    var b := PresentAmong(p, ks0 + [k]);
    if p.items[k] {
      assert b == a + {k};
    } else {
      assert b == a;
    }
  }

  /** A class recorded with no duplicate keys has as many entries as keys. */
  lemma {:induction false} DistinctCount(ks: seq<string>)
    requires Distinct(ks)
    ensures |set k | k in ks| == |ks|
  {
    if ks != [] {
      var ks0 := ks[..|ks| - 1];
      DistinctCount(ks0);
      assert ks[|ks| - 1] !in ks0;
      assert (set k | k in ks) == (set k | k in ks0) + {ks[|ks| - 1]};
    }
  }

  /** The counts of a presence object are those of its mapping: the set
      flags number the present names, and the keys number the entries. */
  lemma CountsOfPresence(p: Presence)
    requires Valid(p)
    ensures CountTrue(Flags(p)) == |PresentNames(p)|
    ensures |p.keys| == |p.items|
  {
    PresentCount(p);
    KeyCount(p);
  }

  /** The set flags number the present names. */
  lemma PresentCount(p: Presence)
    requires Valid(p)
    ensures CountTrue(Flags(p)) == |PresentNames(p)|
  {
    CountMatchesNames(p, p.keys);
    forall n
      ensures n in PresentAmong(p, p.keys) <==> n in PresentNames(p)
    {
    }
    assert PresentAmong(p, p.keys) == PresentNames(p);
  }

  /** The keys number the entries. */
  lemma KeyCount(p: Presence)
    requires Valid(p)
    ensures |p.keys| == |p.items|
  {
    DistinctCount(p.keys);
    var ks := set k | k in p.keys;
    forall k
      ensures k in ks <==> k in p.items.Keys
    {
    }
    assert ks == p.items.Keys;
  }

  /** The summary of class `c` from its presence object `p`: the present
      count, the number of recorded students, their percentage and one line
      per recorded student in key order. */
  function Report(s: State, c: string, p: Presence): (r: ClassReport)
    requires Valid(p) && c in s.classes.items
    ensures r.className == c
    ensures r.total == |p.items|
    ensures r.present == |PresentNames(p)|
    ensures r.present <= r.total && r.percent <= 100
    ensures r.total == 0 ==> r.percent == 0
    ensures r.percent == Percent(r.present, r.total)
    ensures |r.lines| == |p.keys| == r.total
    ensures forall i :: 0 <= i < |r.lines| ==>
      r.lines[i] == Line(DisplayName(s.classes, c, p.keys[i]), p.items[p.keys[i]])
  {
    var present := CountTrue(Flags(p));
    CountsOfPresence(p);
    var lines := seq(|p.keys|, i requires 0 <= i < |p.keys| =>
      Line(DisplayName(s.classes, c, p.keys[i]), p.items[p.keys[i]]));
    ClassReport(c, present, |p.keys|, Percent(present, |p.keys|), lines)
  }

  /** The overview of a clicked date: nothing when no attendance was
      recorded that day, otherwise one report per recorded class, in the
      order the classes were first saved for that date. */
  function DayReport(s: State, d: string): (r: Option<seq<ClassReport>>)
    requires Inv(s)
    ensures r.None? <==> d !in s.attendance.items
    ensures r.Some? ==>
      var day := s.attendance.items[d];
      && |r.value| == |day.keys| > 0
      && forall i :: 0 <= i < |r.value| ==>
           && r.value[i].className == day.keys[i]
           && r.value[i] == Report(s, day.keys[i], day.items[day.keys[i]])
  {
    match Get(s.attendance, d)
    case None => None
    case Some(day) =>
      Some(seq(|day.keys|, i requires 0 <= i < |day.keys| =>
        Report(s, day.keys[i], day.items[day.keys[i]])))
  }
}
