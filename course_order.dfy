/** The order `run` puts the courses in before searching:
    `courses.sort(key=lambda x: (x.ctype == 'Lab', x.hours), reverse=True)`.
    Python's sort is stable, also with `reverse=True`, so courses with equal
    keys keep their relative order. */
module CourseOrder {
  import opened Timetable

  predicate IsLab(c: Course)
  {
    c.ctype == "Lab"
  }

  /** The key of `a` is larger than that of `b` (tuples compare
      lexicographically and False < True). */
  predicate KeyAbove(a: Course, b: Course)
  {
    (IsLab(a) && !IsLab(b)) || (IsLab(a) == IsLab(b) && a.hours > b.hours)
  }

  predicate SameKey(a: Course, b: Course)
  {
    IsLab(a) == IsLab(b) && a.hours == b.hours
  }

  /** Keys are non-increasing from front to back. */
  predicate SearchOrdered(cs: seq<Course>)
  {
    forall i, j :: 0 <= i < j < |cs| ==> !KeyAbove(cs[j], cs[i])
  }

  /** Stable insertion into a key-descending sequence: `x` goes after every
      element whose key is at least its own. */
  function Insert(r: seq<Course>, x: Course): (r': seq<Course>)
    ensures |r'| == |r| + 1
  {
    if r == [] then [x]
    else if KeyAbove(x, r[0]) then [x] + r
    else [r[0]] + Insert(r[1..], x)
  }

  /** The sorted list: each course inserted in catalogue order. */
  function SortForSearch(cs: seq<Course>): (sorted: seq<Course>)
    ensures |sorted| == |cs|
  {
    if cs == [] then [] else Insert(SortForSearch(cs[..|cs| - 1]), cs[|cs| - 1])
  }

  /** The courses of `s` whose key equals that of `c`, in their order in `s`. */
  function WithKeyOf(s: seq<Course>, c: Course): seq<Course>
  {
    if s == [] then []
    else (if SameKey(s[0], c) then [s[0]] else []) + WithKeyOf(s[1..], c)
  }

  lemma {:induction false} WithKeyOfAppend(a: seq<Course>, b: seq<Course>, c: Course)
    ensures WithKeyOf(a + b, c) == WithKeyOf(a, c) + WithKeyOf(b, c)
  {
    if a == [] {
      assert a + b == b;
    } else {
      assert (a + b)[0] == a[0];
      assert (a + b)[1..] == a[1..] + b;
      WithKeyOfAppend(a[1..], b, c);
    }
  }

  lemma {:induction false} WithKeyOfNone(s: seq<Course>, c: Course)
    requires forall e :: e in s ==> !SameKey(e, c)
    ensures WithKeyOf(s, c) == []
  {
    if s != [] {
      WithKeyOfNone(s[1..], c);
    }
  }

  /** Insertion adds exactly `x`. */
  lemma {:induction false} InsertPermutes(r: seq<Course>, x: Course)
    ensures multiset(Insert(r, x)) == multiset(r) + multiset{x}
  {
    if r != [] && !KeyAbove(x, r[0]) {
      InsertPermutes(r[1..], x);
      assert r == [r[0]] + r[1..];
    }
  }

  /** Insertion keeps the order. */
  lemma {:induction false} InsertOrdered(r: seq<Course>, x: Course)
    requires SearchOrdered(r)
    ensures SearchOrdered(Insert(r, x))
  {
    if r != [] && !KeyAbove(x, r[0]) {
      var rest := Insert(r[1..], x);
      assert SearchOrdered(r[1..]);
      InsertOrdered(r[1..], x);
      InsertPermutes(r[1..], x);
      assert r == [r[0]] + r[1..];
      forall j | 0 <= j < |rest| ensures !KeyAbove(rest[j], r[0]) {
        assert rest[j] in multiset(r[1..]) + multiset{x};
        if rest[j] != x {
          assert rest[j] in r[1..];
        }
      }
      assert Insert(r, x) == [r[0]] + rest;
    }
  }

  /** Insertion appends `x` to the courses sharing its key. */
  lemma {:induction false} InsertStable(r: seq<Course>, x: Course, c: Course)
    requires SearchOrdered(r)
    ensures WithKeyOf(Insert(r, x), c) == WithKeyOf(r, c) + (if SameKey(x, c) then [x] else [])
  {
    if r == [] {
      assert WithKeyOf([x], c) == (if SameKey(x, c) then [x] else []) + WithKeyOf([], c);
    } else if KeyAbove(x, r[0]) {
      assert ([x] + r)[0] == x;
      assert ([x] + r)[1..] == r;
      if SameKey(x, c) {
        forall e | e in r ensures !SameKey(e, c) {
          var j :| 0 <= j < |r| && r[j] == e;
          assert j == 0 || !KeyAbove(r[j], r[0]);
        }
        WithKeyOfNone(r, c);
      }
    } else {
      var rest := Insert(r[1..], x);
      assert SearchOrdered(r[1..]);
      InsertStable(r[1..], x, c);
      assert ([r[0]] + rest)[0] == r[0];
      assert ([r[0]] + rest)[1..] == rest;
    }
  }

  /** After the sort every Lab course precedes every other course, and among
      courses of equal Lab-ness the longer come first. */
  lemma {:induction false} SortForSearchOrdered(cs: seq<Course>)
    ensures SearchOrdered(SortForSearch(cs))
    ensures var s := SortForSearch(cs);
      forall i, j :: 0 <= i < j < |s| ==>
        (IsLab(s[j]) ==> IsLab(s[i])) && (IsLab(s[i]) == IsLab(s[j]) ==> s[i].hours >= s[j].hours)
  {
    if cs != [] {
      SortForSearchOrdered(cs[..|cs| - 1]);
      InsertOrdered(SortForSearch(cs[..|cs| - 1]), cs[|cs| - 1]);
    }
  }

  /** The sort is a permutation of the catalogue. */
  lemma {:induction false} SortForSearchPermutes(cs: seq<Course>)
    ensures multiset(SortForSearch(cs)) == multiset(cs)
  {
    if cs != [] {
      SortForSearchPermutes(cs[..|cs| - 1]);
      InsertPermutes(SortForSearch(cs[..|cs| - 1]), cs[|cs| - 1]);
      assert cs == cs[..|cs| - 1] + [cs[|cs| - 1]];
    }
  }

  /** The sort is stable: the courses sharing any one key appear in the
      same relative order as in the catalogue. */
  lemma {:induction false} SortForSearchStable(cs: seq<Course>, c: Course)
    ensures WithKeyOf(SortForSearch(cs), c) == WithKeyOf(cs, c)
  {
    if cs != [] {
      var init, last := cs[..|cs| - 1], cs[|cs| - 1];
      SortForSearchOrdered(init);
      SortForSearchStable(init, c);
      InsertStable(SortForSearch(init), last, c);
      assert cs == init + [last];
      WithKeyOfAppend(init, [last], c);
      assert WithKeyOf([last], c) == (if SameKey(last, c) then [last] else []) + WithKeyOf([], c);
    }
  }

  /** A course together with the slots it holds when the worker is built:
      `courses` are shared objects, and `assigned_slots` survives from an
      earlier generation. Sorting moves each slot list with its course. */
  type Entry = (Course, seq<Slot>)

  function Courses(ps: seq<Entry>): seq<Course>
  {
    if ps == [] then [] else [ps[0].0] + Courses(ps[1..])
  }

  function SlotLists(ps: seq<Entry>): seq<seq<Slot>>
  {
    if ps == [] then [] else [ps[0].1] + SlotLists(ps[1..])
  }

  /** Pairs each course with its slot list; `Courses` and `SlotLists` undo it. */
  function Zip(cs: seq<Course>, a: seq<seq<Slot>>): (ps: seq<Entry>)
    requires |cs| == |a|
    ensures |ps| == |cs| && Courses(ps) == cs && SlotLists(ps) == a
  {
    if cs == [] then [] else [(cs[0], a[0])] + Zip(cs[1..], a[1..])
  }

  /** `Insert` on courses that carry their slots: the key is the course's. */
  function InsertEntry(r: seq<Entry>, x: Entry): (r': seq<Entry>)
    ensures |r'| == |r| + 1
  {
    if r == [] then [x]
    else if KeyAbove(x.0, r[0].0) then [x] + r
    else [r[0]] + InsertEntry(r[1..], x)
  }

  /** The in-place sort of `run` applied to courses that carry their slots. */
  function SortEntries(ps: seq<Entry>): (sorted: seq<Entry>)
    ensures |sorted| == |ps|
  {
    if ps == [] then [] else InsertEntry(SortEntries(ps[..|ps| - 1]), ps[|ps| - 1])
  }

  lemma {:induction false} InsertEntryCourses(r: seq<Entry>, x: Entry)
    ensures Courses(InsertEntry(r, x)) == Insert(Courses(r), x.0)
  {
    if r != [] {
      assert Courses(r)[0] == r[0].0 && Courses(r)[1..] == Courses(r[1..]);
      if !KeyAbove(x.0, r[0].0) {
        InsertEntryCourses(r[1..], x);
      }
    }
  }

  lemma {:induction false} InsertEntryPermutes(r: seq<Entry>, x: Entry)
    ensures multiset(InsertEntry(r, x)) == multiset(r) + multiset{x}
  {
    if r != [] && !KeyAbove(x.0, r[0].0) {
      InsertEntryPermutes(r[1..], x);
      assert r == [r[0]] + r[1..];
    }
  }

  /** Sorting courses that carry their slots orders the courses exactly as
      `SortForSearch` does. */
  lemma {:induction false} SortEntriesCourses(ps: seq<Entry>)
    ensures Courses(SortEntries(ps)) == SortForSearch(Courses(ps))
  {
    if ps != [] {
      var init, last := ps[..|ps| - 1], ps[|ps| - 1];
      SortEntriesCourses(init);
      InsertEntryCourses(SortEntries(init), last);
      CoursesSnoc(init, last);
      assert ps == init + [last];
    }
  }

  lemma {:induction false} CoursesSnoc(ps: seq<Entry>, x: Entry)
    ensures Courses(ps + [x]) == Courses(ps) + [x.0]
  {
    if ps != [] {
      assert (ps + [x])[0] == ps[0];
      assert (ps + [x])[1..] == ps[1..] + [x];
      CoursesSnoc(ps[1..], x);
    }
  }

  /** Sorting moves every slot list together with its course: the sorted
      pairs are a permutation of the original pairs. */
  lemma {:induction false} SortEntriesPermutes(ps: seq<Entry>)
    ensures multiset(SortEntries(ps)) == multiset(ps)
  {
    if ps != [] {
      SortEntriesPermutes(ps[..|ps| - 1]);
      InsertEntryPermutes(SortEntries(ps[..|ps| - 1]), ps[|ps| - 1]);
      assert ps == ps[..|ps| - 1] + [ps[|ps| - 1]];
    }
  }

  lemma {:induction false} EntryListsLength(ps: seq<Entry>)
    ensures |Courses(ps)| == |ps| && |SlotLists(ps)| == |ps|
  {
    if ps != [] {
      EntryListsLength(ps[1..]);
    }
  }
}
