/** The autocomplete source for the student-name field: every enrolled name
    once, and the names matching what has been typed so far. */
module Names {
  import opened Strings
  import opened OrderedMap
  import opened Roster

  /** Some student of some class carries the name `x`. */
  ghost predicate Enrolled(r: Classes, x: string) {
    exists c, i :: c in r.items && 0 <= i < |r.items[c]| && r.items[c][i].name == x
  }

  /** The student names of the classes `ks`, class after class, repeats
      included. */
  function NamesOver(r: Classes, ks: seq<string>): (ns: seq<string>)
    requires forall k :: k in ks ==> k in r.items
    ensures forall x :: x in ns <==>
      exists j, i :: 0 <= j < |ks| && 0 <= i < |r.items[ks[j]]| && r.items[ks[j]][i].name == x
  {
    if ks == [] then []
    else
      var ss := r.items[ks[|ks| - 1]];
      assert forall i :: 0 <= i < |ss| ==> NamesOf(ss)[i] == ss[i].name;
      NamesOver(r, ks[..|ks| - 1]) + NamesOf(ss)
  }

  /** Feeds names into a `Set` in order, skipping empty ones, and lists the
      set: each non-empty name once, at its first occurrence. */
  function Collect(ns: seq<string>): (r: seq<string>)
    ensures Distinct(r)
    ensures forall x :: x in r <==> x in ns && x != []
  {
    if ns == [] then []
    else
      var r0 := Collect(ns[..|ns| - 1]);
      var x := ns[|ns| - 1];
      if x == [] || x in r0 then r0 else r0 + [x]
  }

  /** A `Set` lists its members in insertion order: two collected names
      come in the order of their first occurrences among the fed names. */
  lemma {:induction false} CollectOrder(ns: seq<string>, x: string, y: string)
    requires x in Collect(ns) && y in Collect(ns)
    ensures IndexOf(Collect(ns), x) < IndexOf(Collect(ns), y) <==> IndexOf(ns, x) < IndexOf(ns, y)
  {
    var ns0 := ns[..|ns| - 1];
    var r0 := Collect(ns0);
    var z := ns[|ns| - 1];
    assert ns == ns0 + [z];
    if z == [] || z in r0 {
      CollectOrder(ns0, x, y);
      IndexOfAppend(ns0, z, x);
      IndexOfAppend(ns0, z, y);
    } else {
      assert z !in ns0;
      if x != z && y != z {
        CollectOrder(ns0, x, y);
        IndexOfAppend(ns0, z, x);
        IndexOfAppend(ns0, z, y);
        IndexOfAppend(r0, z, x);
        IndexOfAppend(r0, z, y);
      } else if x != z {
        IndexOfAppend(ns0, z, x);
        IndexOfAppend(r0, z, x);
      } else if y != z {
        IndexOfAppend(ns0, z, y);
        IndexOfAppend(r0, z, y);
      }
    }
  }

  /** `getAllStudentNames`: every non-empty student name of every class,
      each once. */
  function AllStudentNames(r: Classes): (ns: seq<string>)
    requires Valid(r)
    ensures Distinct(ns)
    ensures forall x :: x in ns <==> x != [] && Enrolled(r, x)
  {
    Collect(NamesOver(r, r.keys))
  }

  /** The names among `ns` whose lower-cased form contains `q`, in order. */
  function Matching(ns: seq<string>, q: string): (ms: seq<string>)
    ensures forall x :: x in ms <==> x in ns && Contains(Lower(x), q)
    ensures Distinct(ns) ==> Distinct(ms)
  {
    if ns == [] then []
    else
      var ms0 := Matching(ns[..|ns| - 1], q);
      var x := ns[|ns| - 1];
      if Contains(Lower(x), q) then ms0 + [x] else ms0
  }

  /** `filter` keeps order: two matching names come in the order they
      have among the candidates. */
  lemma {:induction false} MatchingOrder(ns: seq<string>, q: string, x: string, y: string)
    requires x in Matching(ns, q) && y in Matching(ns, q)
    ensures IndexOf(Matching(ns, q), x) < IndexOf(Matching(ns, q), y) <==> IndexOf(ns, x) < IndexOf(ns, y)
  {
    var ns0 := ns[..|ns| - 1];
    var ms0 := Matching(ns0, q);
    var z := ns[|ns| - 1];
    assert ns == ns0 + [z];
    if !Contains(Lower(z), q) {
      MatchingOrder(ns0, q, x, y);
      IndexOfAppend(ns0, z, x);
      IndexOfAppend(ns0, z, y);
    } else if x in ms0 && y in ms0 {
      MatchingOrder(ns0, q, x, y);
      IndexOfAppend(ns0, z, x);
      IndexOfAppend(ns0, z, y);
      IndexOfAppend(ms0, z, x);
      IndexOfAppend(ms0, z, y);
    } else if x in ms0 {
      assert y == z && y !in ns0;
      IndexOfAppend(ns0, z, x);
      IndexOfAppend(ms0, z, x);
    } else if y in ms0 {
      assert x == z && x !in ns0;
      IndexOfAppend(ns0, z, y);
      IndexOfAppend(ms0, z, y);
    }
  }

  /** The suggestions shown while typing in the name field: none for a
      blank field, otherwise every enrolled name that contains the trimmed
      field case-insensitively, each once. */
  function Suggestions(r: Classes, field: string): (ms: seq<string>)
    requires Valid(r)
    ensures IsBlank(field) ==> ms == []
    ensures Distinct(ms)
    ensures !IsBlank(field) ==> forall x :: x in ms <==>
      x in AllStudentNames(r) && Contains(Lower(x), Lower(Trim(field)))
  {
    var q := Lower(Trim(field));
    if q == [] then [] else Matching(AllStudentNames(r), q)
  }
}
