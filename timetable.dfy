/** The calendar, the course and room records, the slot validator and the
    occupancy that a committed prefix of courses induces (src/beeplan.py). */
module Timetable {

  /** DAYS has five entries, HOURS has eight. */
  const NumDays := 5
  const NumHours := 8
  /** Friday is day index 4; its hour indices 4 and 5 are the exam window. */
  const FridayIndex := 4
  const FridayBlockIndices: seq<int> := [4, 5]

  datatype Course = Course(code: string, name: string, instructor: string, hours: int,
                           ctype: string, year: int, students: int)

  datatype Room = Room(name: string, capacity: int, rtype: string)

  /** (day index, hour index) as kept in the instructor and year schedules. */
  type DayHour = (int, int)
  /** (day index, hour index, room name) as kept in the grid and in assigned_slots. */
  type Slot = (int, int, string)

  /** How many slots `range(hours)` produces. */
  function Duration(c: Course): nat
  {
    if c.hours < 0 then 0 else c.hours
  }

  /** A `defaultdict(list)` read: a missing key reads as the empty list. */
  function Lookup<K, V>(m: map<K, seq<V>>, k: K): seq<V>
  {
    if k in m then m[k] else []
  }

  /** No key maps to the empty list. The two `defaultdict(list)`s are kept in
      this form: a key whose list is empty reads exactly like a missing key. */
  predicate NoEmptyLists<K(!new), V>(m: map<K, seq<V>>)
  {
    forall k :: k in m ==> m[k] != []
  }

  /** A write of key k of a `defaultdict(list)`, kept free of empty lists.
      Only key k reads differently afterwards. */
  function Store<K(!new), V>(m: map<K, seq<V>>, k: K, v: seq<V>): (r: map<K, seq<V>>)
    ensures Lookup(r, k) == v
    ensures forall x {:trigger Lookup(r, x)} :: x != k ==> Lookup(r, x) == Lookup(m, x)
    ensures NoEmptyLists(m) ==> NoEmptyLists(r)
  {
    if v == [] then m - {k} else m[k := v]
  }

  /** Two `defaultdict(list)`s free of empty lists that read alike are equal. */
  lemma LookupExtensional<K(!new), V>(m1: map<K, seq<V>>, m2: map<K, seq<V>>)
    requires NoEmptyLists(m1) && NoEmptyLists(m2)
    requires forall x {:trigger Lookup(m1, x)} :: Lookup(m1, x) == Lookup(m2, x)
    ensures m1 == m2
  {
    forall x | x in m1
      ensures x in m2 && m1[x] == m2[x]
    {
      assert Lookup(m1, x) == Lookup(m2, x);
    }
    forall x | x in m2
      ensures x in m1
    {
      assert Lookup(m1, x) == Lookup(m2, x);
    }
  }

  predicate FridayBlocked(d: int, h: int)
  {
    d == FridayIndex && h in FridayBlockIndices
  }

  /** Number of entries of `s` on day `d`, counted from the front. */
  function CountOnDay(s: seq<DayHour>, d: int): (n: nat)
    ensures n <= |s|
  {
    if s == [] then 0
    else CountOnDay(s[..|s| - 1], d) + (if s[|s| - 1].0 == d then 1 else 0)
  }

  predicate RoomTypeFits(c: Course, r: Room)
  {
    (c.ctype == "Lab" ==> r.rtype == "Lab") && (c.ctype == "Theory" ==> r.rtype != "Lab")
  }

  /** The conditions under which `is_valid(course, d, h, room)` answers True,
      given the grid and the course's instructor and year lists. */
  predicate Admissible(grid: map<Slot, nat>, instr: seq<DayHour>, cohort: seq<DayHour>,
                       c: Course, d: int, h: int, r: Room)
    ensures Admissible(grid, instr, cohort, c, d, h, r) ==>
              !(d == 4 && (h == 4 || h == 5)) && (r.rtype == "Lab" ==> c.ctype != "Theory")
  {
    && (d, h, r.name) !in grid
    && !FridayBlocked(d, h)
    && (d, h) !in instr
    && (d, h) !in cohort
    && r.capacity >= c.students
    && RoomTypeFits(c, r)
    && (c.ctype == "Theory" ==> CountOnDay(instr, d) < 4)
  }

  /** Every offset of the block starting at (d, h) in room r passes, each
      checked against the same occupancy (nothing of the block is committed yet). */
  predicate BlockAdmissible(grid: map<Slot, nat>, instr: seq<DayHour>, cohort: seq<DayHour>,
                            c: Course, d: int, h: int, r: Room)
  {
    forall t :: h <= t < h + Duration(c) ==> Admissible(grid, instr, cohort, c, d, t, r)
  }

  /** The slots of a block: hours h .. h+n-1 of day d in the named room. */
  function Block(d: int, h: int, name: string, n: nat): (b: seq<Slot>)
    ensures |b| == n
  {
    seq(n, i requires 0 <= i < n => (d, h + i, name))
  }

  /** The (day, hour) pairs of a block, as `temp_assignments` holds them. */
  function BlockHours(d: int, h: int, n: nat): (b: seq<DayHour>)
    ensures |b| == n
  {
    seq(n, i requires 0 <= i < n => (d, h + i))
  }

  function DayHours(s: seq<Slot>): (r: seq<DayHour>)
    ensures |r| == |s|
  {
    seq(|s|, i requires 0 <= i < |s| => (s[i].0, s[i].1))
  }

  /** Grid entries of one committed block, all pointing at course index j. */
  function BlockMap(b: seq<Slot>, j: nat): map<Slot, nat>
  {
    map s | s in b :: j
  }

  /** The grid after committing the blocks of courses 0 .. k-1 in order. */
  function GridOf(a: seq<seq<Slot>>, k: nat): map<Slot, nat>
    requires k <= |a|
  {
    if k == 0 then map[] else GridOf(a, k - 1) + BlockMap(a[k - 1], k - 1)
  }

  /** The instructor's list after committing courses 0 .. k-1 in order. */
  function InstrOf(cs: seq<Course>, a: seq<seq<Slot>>, ins: string, k: nat): seq<DayHour>
    requires k <= |a| && k <= |cs|
  {
    if k == 0 then []
    else InstrOf(cs, a, ins, k - 1) + (if cs[k - 1].instructor == ins then DayHours(a[k - 1]) else [])
  }

  /** The year's list after committing courses 0 .. k-1 in order. */
  function CohortOf(cs: seq<Course>, a: seq<seq<Slot>>, y: int, k: nat): seq<DayHour>
    requires k <= |a| && k <= |cs|
  {
    if k == 0 then []
    else CohortOf(cs, a, y, k - 1) + (if cs[k - 1].year == y then DayHours(a[k - 1]) else [])
  }

  /** Course j sits in the block (d, h) of room ri, a start the search
      enumerates, and that block passed the validator against the occupancy
      of the courses before it. */
  ghost predicate PlacementOk(cs: seq<Course>, rooms: seq<Room>, a: seq<seq<Slot>>,
                              j: nat, d: int, h: int, ri: int)
    requires j < |cs| && j < |a|
  {
    && 0 <= d < NumDays
    && 0 <= h < NumHours - cs[j].hours + 1
    && 0 <= ri < |rooms|
    && a[j] == Block(d, h, rooms[ri].name, Duration(cs[j]))
    && BlockAdmissible(GridOf(a, j), InstrOf(cs, a, cs[j].instructor, j),
                       CohortOf(cs, a, cs[j].year, j), cs[j], d, h, rooms[ri])
  }

  ghost predicate Placed(cs: seq<Course>, rooms: seq<Room>, a: seq<seq<Slot>>, j: nat)
    requires j < |cs| && j < |a|
  {
    exists d, h, ri :: PlacementOk(cs, rooms, a, j, d, h, ri)
  }

  /** Courses 0 .. k-1 are placed, each against its predecessors. */
  ghost predicate PrefixPlaced(cs: seq<Course>, rooms: seq<Room>, a: seq<seq<Slot>>, k: nat)
  {
    k <= |cs| && k <= |a| && forall j :: 0 <= j < k ==> Placed(cs, rooms, a, j)
  }

  /** `a'` keeps the first k blocks of `a` and places every course. */
  ghost predicate IsCompletion(cs: seq<Course>, rooms: seq<Room>, a: seq<seq<Slot>>, k: nat,
                               a': seq<seq<Slot>>)
  {
    k <= |a| && |a'| == |cs| && k <= |a'| && a'[..k] == a[..k] && PrefixPlaced(cs, rooms, a', |cs|)
  }

  ghost predicate Completable(cs: seq<Course>, rooms: seq<Room>, a: seq<seq<Slot>>, k: nat)
  {
    exists a' :: IsCompletion(cs, rooms, a, k, a')
  }
}
