/** What a timetable that places every course guarantees: the promises the
    validator `is_valid` makes one block at a time, read off for the whole
    timetable. */
module TimetableSoundness {
  import opened Timetable

  /** A committed block stays in the grid of every later prefix. */
  lemma {:induction false} InGridOf(a: seq<seq<Slot>>, i: nat, k: nat, s: Slot)
    requires i < k <= |a| && s in a[i]
    ensures s in GridOf(a, k)
    decreases k
  {
    if i < k - 1 {
      InGridOf(a, i, k - 1, s);
    }
  }

  /** A committed block stays in its instructor's list of every later prefix. */
  lemma {:induction false} InInstrOf(cs: seq<Course>, a: seq<seq<Slot>>, i: nat, k: nat, p: DayHour)
    requires i < k <= |a| && k <= |cs| && p in DayHours(a[i])
    ensures p in InstrOf(cs, a, cs[i].instructor, k)
    decreases k
  {
    if i < k - 1 {
      InInstrOf(cs, a, i, k - 1, p);
    }
  }

  /** A committed block stays in its year's list of every later prefix. */
  lemma {:induction false} InCohortOf(cs: seq<Course>, a: seq<seq<Slot>>, i: nat, k: nat, p: DayHour)
    requires i < k <= |a| && k <= |cs| && p in DayHours(a[i])
    ensures p in CohortOf(cs, a, cs[i].year, k)
    decreases k
  {
    if i < k - 1 {
      InCohortOf(cs, a, i, k - 1, p);
    }
  }

  /** Every slot of a placed course lies inside the week, off the Friday
      block, and was free in the grid, for the instructor and for the year
      when the course was placed. */
  lemma SlotOfPlaced(cs: seq<Course>, rooms: seq<Room>, a: seq<seq<Slot>>, j: nat, u: nat)
    requires j < |cs| && j < |a| && Placed(cs, rooms, a, j) && u < |a[j]|
    ensures 0 <= a[j][u].0 < NumDays && 0 <= a[j][u].1 < NumHours
    ensures !FridayBlocked(a[j][u].0, a[j][u].1)
    ensures a[j][u] !in GridOf(a, j)
    ensures DayHours(a[j])[u] !in InstrOf(cs, a, cs[j].instructor, j)
    ensures DayHours(a[j])[u] !in CohortOf(cs, a, cs[j].year, j)
  {
    var d, h, ri :| PlacementOk(cs, rooms, a, j, d, h, ri);
    assert a[j][u] == (d, h + u, rooms[ri].name);
    assert Admissible(GridOf(a, j), InstrOf(cs, a, cs[j].instructor, j),
                      CohortOf(cs, a, cs[j].year, j), cs[j], d, h + u, rooms[ri]);
  }

  /** No (day, hour, room) holds two courses. */
  lemma NoRoomClash(cs: seq<Course>, rooms: seq<Room>, a: seq<seq<Slot>>)
    requires PrefixPlaced(cs, rooms, a, |cs|)
    ensures forall i, j, s :: 0 <= i < j < |cs| && s in a[i] ==> s !in a[j]
  {
    forall i, j, s | 0 <= i < j < |cs| && s in a[i]
      ensures s !in a[j]
    {
      if s in a[j] {
        var u :| 0 <= u < |a[j]| && a[j][u] == s;
        SlotOfPlaced(cs, rooms, a, j, u);
        InGridOf(a, i, j, s);
      }
    }
  }

  /** No instructor teaches two courses in the same (day, hour). */
  lemma NoInstructorClash(cs: seq<Course>, rooms: seq<Room>, a: seq<seq<Slot>>)
    requires PrefixPlaced(cs, rooms, a, |cs|)
    ensures forall i, j, p ::
              (0 <= i < j < |cs| && cs[i].instructor == cs[j].instructor && p in DayHours(a[i]))
                ==> p !in DayHours(a[j])
  {
    forall i, j, p | 0 <= i < j < |cs| && cs[i].instructor == cs[j].instructor && p in DayHours(a[i])
      ensures p !in DayHours(a[j])
    {
      if p in DayHours(a[j]) {
        var u :| 0 <= u < |a[j]| && DayHours(a[j])[u] == p;
        SlotOfPlaced(cs, rooms, a, j, u);
        InInstrOf(cs, a, i, j, p);
      }
    }
  }

  /** No year sits two courses in the same (day, hour). */
  lemma NoCohortClash(cs: seq<Course>, rooms: seq<Room>, a: seq<seq<Slot>>)
    requires PrefixPlaced(cs, rooms, a, |cs|)
    ensures forall i, j, p ::
              (0 <= i < j < |cs| && cs[i].year == cs[j].year && p in DayHours(a[i]))
                ==> p !in DayHours(a[j])
  {
    forall i, j, p | 0 <= i < j < |cs| && cs[i].year == cs[j].year && p in DayHours(a[i])
      ensures p !in DayHours(a[j])
    {
      if p in DayHours(a[j]) {
        var u :| 0 <= u < |a[j]| && DayHours(a[j])[u] == p;
        SlotOfPlaced(cs, rooms, a, j, u);
        InCohortOf(cs, a, i, j, p);
      }
    }
  }

  /** Nothing is scheduled in the Friday block, and every slot lies in the week. */
  lemma FridayBlockFree(cs: seq<Course>, rooms: seq<Room>, a: seq<seq<Slot>>)
    requires PrefixPlaced(cs, rooms, a, |cs|)
    ensures forall j, s :: 0 <= j < |cs| && s in a[j] ==>
              !FridayBlocked(s.0, s.1) && 0 <= s.0 < NumDays && 0 <= s.1 < NumHours
  {
    forall j, s | 0 <= j < |cs| && s in a[j]
      ensures !FridayBlocked(s.0, s.1) && 0 <= s.0 < NumDays && 0 <= s.1 < NumHours
    {
      var u :| 0 <= u < |a[j]| && a[j][u] == s;
      SlotOfPlaced(cs, rooms, a, j, u);
    }
  }

  /** A course of at least one hour gets `hours` consecutive hours of one day
      ending by the last hour, in one room that seats its students and suits
      its type; a theory course's instructor had fewer than four hours that
      day before it. */
  lemma PlacedBlockShape(cs: seq<Course>, rooms: seq<Room>, a: seq<seq<Slot>>, j: nat)
    requires PrefixPlaced(cs, rooms, a, |cs|) && j < |cs| && cs[j].hours >= 1
    ensures exists d, h, ri ::
              && 0 <= d < NumDays && 0 <= h && h + cs[j].hours <= NumHours && 0 <= ri < |rooms|
              && a[j] == Block(d, h, rooms[ri].name, cs[j].hours)
              && rooms[ri].capacity >= cs[j].students && RoomTypeFits(cs[j], rooms[ri])
              && (cs[j].ctype == "Theory" ==> CountOnDay(InstrOf(cs, a, cs[j].instructor, j), d) < 4)
  {
    assert Placed(cs, rooms, a, j);
    var d, h, ri :| PlacementOk(cs, rooms, a, j, d, h, ri);
    assert Admissible(GridOf(a, j), InstrOf(cs, a, cs[j].instructor, j),
                      CohortOf(cs, a, cs[j].year, j), cs[j], d, h, rooms[ri]);
  }
}
