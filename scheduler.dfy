/** `SchedulerWorker` of src/beeplan.py: the validator `is_valid`, the
    backtracking search `solve` and the entry point `run` (the sort and the
    call `solve(0)`; the thread and signal plumbing is not modelled). */
module Scheduler {
  import opened Timetable
  import opened OccupancyFacts
  import opened CourseOrder

  class SchedulerWorker {
    var courses: seq<Course>
    const rooms: seq<Room>
    /** `schedule_grid`: (day, hour, room name) -> index of the occupying course. */
    var grid: map<Slot, nat>
    /** `instructor_schedule` and `year_schedule`, two `defaultdict(list)`s. */
    var instructorSchedule: map<string, seq<DayHour>>
    var yearSchedule: map<int, seq<DayHour>>
    /** `assigned_slots` of `courses[j]`, kept at index j. */
    var assignedSlots: seq<seq<Slot>>

    /** `SchedulerWorker(courses, rooms, rules)`: empty occupancy over the
        given courses. The courses are shared with the application, so each
        keeps the `assigned_slots` an earlier generation left on it. */
    constructor (catalog: seq<Entry>, rooms: seq<Room>)
      ensures courses == Courses(catalog) && assignedSlots == SlotLists(catalog) && this.rooms == rooms
      ensures |assignedSlots| == |courses|
      ensures grid == map[] && instructorSchedule == map[] && yearSchedule == map[]
    {
      courses := Courses(catalog);
      assignedSlots := SlotLists(catalog);
      this.rooms := rooms;
      grid := map[];
      instructorSchedule := map[];
      yearSchedule := map[];
      EntryListsLength(catalog);
    }

    /** The occupancy is exactly that of the blocks of courses 0 .. k-1,
        committed in order, and each of those blocks passed the validator. */
    ghost predicate Committed(k: nat)
      reads this
    {
      CommittedState(courses, rooms, assignedSlots, grid, instructorSchedule, yearSchedule, k)
    }

    /** `is_valid`: may `course` take hour h of day d in `room`? Read-only. */
    method IsValid(course: Course, d: int, h: int, room: Room) returns (ok: bool)
      ensures ok == Admissible(grid, Lookup(instructorSchedule, course.instructor),
                               Lookup(yearSchedule, course.year), course, d, h, room)
    {
      if (d, h, room.name) in grid {
        return false;
      }
      if d == FridayIndex && h in FridayBlockIndices {
        return false;
      }
      var instr := Lookup(instructorSchedule, course.instructor);
      var i := 0;
      while i < |instr|
        invariant 0 <= i <= |instr|
        invariant forall m :: 0 <= m < i ==> instr[m] != (d, h)
      {
        if instr[i].0 == d && instr[i].1 == h {
          return false;
        }
        i := i + 1;
      }
      var cohort := Lookup(yearSchedule, course.year);
      i := 0;
      while i < |cohort|
        invariant 0 <= i <= |cohort|
        invariant forall m :: 0 <= m < i ==> cohort[m] != (d, h)
      {
        if cohort[i].0 == d && cohort[i].1 == h {
          return false;
        }
        i := i + 1;
      }
      if room.capacity < course.students {
        return false;
      }
      if course.ctype == "Lab" && room.rtype != "Lab" {
        return false;
      }
      if course.ctype == "Theory" && room.rtype == "Lab" {
        return false;
      }
      if course.ctype == "Theory" {
        var dailyHours := 0;
        i := 0;
        while i < |instr|
          invariant 0 <= i <= |instr|
          invariant dailyHours == CountOnDay(instr[..i], d)
        {
          assert instr[..i + 1][..i] == instr[..i];
          if instr[i].0 == d {
            dailyHours := dailyHours + 1;
          }
          i := i + 1;
        }
        assert instr[..i] == instr;
        if dailyHours >= 4 {
          return false;
        }
      }
      return true;
    }

    /** The inner `for i in range(required_slots)` loop of `solve`: checks
        each offset of the block with `is_valid` and collects `temp_assignments`. */
    method CheckBlock(course: Course, d: int, h: int, room: Room) returns (blockValid: bool, temp: seq<DayHour>)
      ensures blockValid == BlockAdmissible(grid, Lookup(instructorSchedule, course.instructor),
                                            Lookup(yearSchedule, course.year), course, d, h, room)
      ensures blockValid ==> temp == BlockHours(d, h, Duration(course))
    {
      blockValid := true;
      temp := [];
      var i := 0;
      while i < course.hours
        invariant 0 <= i <= Duration(course)
        invariant temp == BlockHours(d, h, i)
        invariant forall t :: h <= t < h + i ==>
          Admissible(grid, Lookup(instructorSchedule, course.instructor),
                     Lookup(yearSchedule, course.year), course, d, t, room)
      {
        var ok := IsValid(course, d, h + i, room);
        if !ok {
          blockValid := false;
          break;
        }
        assert BlockHours(d, h, i + 1) == BlockHours(d, h, i) + [(d, h + i)];
        temp := temp + [(d, h + i)];
        i := i + 1;
      }
    }

    /** The commit loop of `solve`: writes every pair of `temp` into the grid,
        the instructor's list, the year's list and `assigned_slots` of course k. */
    method CommitBlock(k: nat, temp: seq<DayHour>, room: Room)
      requires |assignedSlots| == |courses| && k < |courses|
      requires NoEmptyLists(instructorSchedule) && NoEmptyLists(yearSchedule)
      modifies this`grid, this`instructorSchedule, this`yearSchedule, this`assignedSlots
      ensures assignedSlots == old(assignedSlots)[k := WithRoom(temp, room.name)]
      ensures grid == old(grid) + BlockMap(WithRoom(temp, room.name), k)
      ensures ExtendedBy(old(instructorSchedule), old(yearSchedule), courses[k].instructor, courses[k].year, temp,
                         instructorSchedule, yearSchedule)
    {
      var course := courses[k];
      assignedSlots := assignedSlots[k := []];
      var i := 0;
      while i < |temp|
        invariant 0 <= i <= |temp|
        invariant assignedSlots == old(assignedSlots)[k := WithRoom(temp[..i], room.name)]
        invariant grid == old(grid) + BlockMap(WithRoom(temp[..i], room.name), k)
        invariant ExtendedBy(old(instructorSchedule), old(yearSchedule), course.instructor, course.year, temp[..i],
                             instructorSchedule, yearSchedule)
      {
        CommitSlot(k, temp, i, room, old(assignedSlots), old(grid), old(instructorSchedule), old(yearSchedule));
        i := i + 1;
      }
      assert i == |temp|;
      assert temp[..i] == temp;
    }

    /** One pass of the commit loop: `schedule_grid[slot] = course`, the two
        `append`s and `course.assigned_slots.append(slot)` for pair temp[i]
        of course k in `room`. The occupancy goes from the base plus temp[..i]
        to the base plus temp[..i+1]. */
    method CommitSlot(k: nat, temp: seq<DayHour>, i: nat, room: Room, ghost a0: seq<seq<Slot>>,
                      ghost g0: map<Slot, nat>, ghost isch0: map<string, seq<DayHour>>,
                      ghost ysch0: map<int, seq<DayHour>>)
      requires k < |courses| && k < |a0| && i < |temp|
      requires assignedSlots == a0[k := WithRoom(temp[..i], room.name)]
      requires grid == g0 + BlockMap(WithRoom(temp[..i], room.name), k)
      requires ExtendedBy(isch0, ysch0, courses[k].instructor, courses[k].year, temp[..i],
                          instructorSchedule, yearSchedule)
      modifies this`grid, this`instructorSchedule, this`yearSchedule, this`assignedSlots
      ensures assignedSlots == a0[k := WithRoom(temp[..i + 1], room.name)]
      ensures grid == g0 + BlockMap(WithRoom(temp[..i + 1], room.name), k)
      ensures ExtendedBy(isch0, ysch0, courses[k].instructor, courses[k].year, temp[..i + 1],
                         instructorSchedule, yearSchedule)
    {
      var course := courses[k];
      var ad, ah := temp[i].0, temp[i].1;
      WithRoomSnoc(temp, i, room.name);
      BlockMapSnoc(g0, WithRoom(temp[..i], room.name), (ad, ah, room.name), k);
      assert temp[..i + 1] == temp[..i] + [(ad, ah)];
      ExtendStep(isch0, ysch0, course.instructor, course.year, temp[..i], (ad, ah),
                 instructorSchedule, yearSchedule);
      grid := grid[(ad, ah, room.name) := k];
      instructorSchedule := Store(instructorSchedule, course.instructor,
                                  Lookup(instructorSchedule, course.instructor) + [(ad, ah)]);
      yearSchedule := Store(yearSchedule, course.year, Lookup(yearSchedule, course.year) + [(ad, ah)]);
      assignedSlots := assignedSlots[k := assignedSlots[k] + [(ad, ah, room.name)]];
    }

    /** One pass of the rollback loop: `del` of the grid entry of slot
        b[i] of course k and the `remove` of its pair from the instructor's
        and the year's list. The occupancy goes from the base plus b[i..] to
        the base plus b[i+1..]. */
    method RollbackSlot(k: nat, b: seq<Slot>, i: nat, ghost g0: map<Slot, nat>,
                        ghost isch0: map<string, seq<DayHour>>, ghost ysch0: map<int, seq<DayHour>>)
      requires k < |courses| && i < |b|
      requires BlockFresh(g0, Lookup(isch0, courses[k].instructor), Lookup(ysch0, courses[k].year), b)
      requires HeldFrom(g0, isch0, ysch0, courses[k].instructor, courses[k].year, b, i, k,
                        grid, instructorSchedule, yearSchedule)
      requires NoEmptyLists(instructorSchedule) && NoEmptyLists(yearSchedule)
      modifies this`grid, this`instructorSchedule, this`yearSchedule
      ensures HeldFrom(g0, isch0, ysch0, courses[k].instructor, courses[k].year, b, i + 1, k,
                       grid, instructorSchedule, yearSchedule)
      ensures NoEmptyLists(instructorSchedule) && NoEmptyLists(yearSchedule)
    {
      var course := courses[k];
      var slot := b[i];
      RollbackStep(g0, isch0, ysch0, course.instructor, course.year, b, i, k,
                   grid, instructorSchedule, yearSchedule);
      grid := grid - {slot};
      instructorSchedule := Store(instructorSchedule, course.instructor,
                                  RemoveFirst(Lookup(instructorSchedule, course.instructor), (slot.0, slot.1)));
      yearSchedule := Store(yearSchedule, course.year, RemoveFirst(Lookup(yearSchedule, course.year), (slot.0, slot.1)));
    }

    /** The rollback loop of `solve`: deletes the grid entries of course k's
        slots, removes their pairs from the two lists, and clears its slots.
        The ghost parameters are the occupancy from before the block's commit,
        which is restored exactly. */
    method RollbackBlock(k: nat, ghost g0: map<Slot, nat>, ghost isch0: map<string, seq<DayHour>>,
                         ghost ysch0: map<int, seq<DayHour>>)
      requires |assignedSlots| == |courses| && k < |courses|
      requires BlockFresh(g0, Lookup(isch0, courses[k].instructor), Lookup(ysch0, courses[k].year), assignedSlots[k])
      requires HeldFrom(g0, isch0, ysch0, courses[k].instructor, courses[k].year, assignedSlots[k], 0, k,
                        grid, instructorSchedule, yearSchedule)
      requires NoEmptyLists(isch0) && NoEmptyLists(ysch0)
      requires NoEmptyLists(instructorSchedule) && NoEmptyLists(yearSchedule)
      modifies this`grid, this`instructorSchedule, this`yearSchedule, this`assignedSlots
      ensures grid == g0 && instructorSchedule == isch0 && yearSchedule == ysch0
      ensures assignedSlots == old(assignedSlots)[k := []]
    {
      var course := courses[k];
      var slots := assignedSlots[k];
      var i := 0;
      while i < |slots|
        invariant 0 <= i <= |slots| && assignedSlots == old(assignedSlots)
        invariant HeldFrom(g0, isch0, ysch0, course.instructor, course.year, slots, i, k,
                           grid, instructorSchedule, yearSchedule)
        invariant NoEmptyLists(instructorSchedule) && NoEmptyLists(yearSchedule)
      {
        RollbackSlot(k, slots, i, g0, isch0, ysch0);
        i := i + 1;
      }
      assert i == |slots|;
      RollbackDone(g0, isch0, ysch0, course.instructor, course.year, slots, k,
                   grid, instructorSchedule, yearSchedule);
      assignedSlots := assignedSlots[k := []];
    }

    /** `solve(course_idx)`: places courses k, k+1, ... by backtracking. On
        True the slots form a completion of the committed prefix, in which every
        block passed the validator, and the occupancy holds all courses. On
        False no such completion exists (within the starts the loops
        enumerate), the occupancy is as it was, and every course from k on
        kept its slots or lost them. */
    method Solve(k: nat) returns (ok: bool)
      requires Committed(k)
      modifies this`grid, this`instructorSchedule, this`yearSchedule, this`assignedSlots
      decreases |courses| - k, 4
      ensures ok ==> IsCompletion(courses, rooms, old(assignedSlots), k, assignedSlots) && Committed(|courses|)
      ensures !ok ==> !Completable(courses, rooms, old(assignedSlots), k)
      ensures !ok ==> grid == old(grid) && instructorSchedule == old(instructorSchedule)
                      && yearSchedule == old(yearSchedule)
      ensures !ok ==> KeptOrCleared(old(assignedSlots), assignedSlots, k)
    {
      if k >= |courses| {
        assert k == |courses|;
        return true;
      }
      ghost var a0, g0, isch0, ysch0 := assignedSlots, grid, instructorSchedule, yearSchedule;
      NothingBeforeStart(courses, rooms, a0, k);
      var d := 0;
      while d < NumDays
        invariant 0 <= d <= NumDays
        invariant grid == g0 && instructorSchedule == isch0 && yearSchedule == ysch0
        invariant KeptOrCleared(a0, assignedSlots, k)
        invariant NoCompletionBefore(courses, rooms, a0, k, d, 0, 0)
      {
        ok := TryHours(k, d, a0);
        if ok {
          return true;
        }
        d := d + 1;
      }
      Exhausted(courses, rooms, a0, k);
      return false;
    }

    /** The `for h in range(len(HOURS) - required_slots + 1)` loop of
        `solve` for day d. `a0` holds the slots `solve(k)` began with. On True
        the slots complete that prefix; on False no completion starts on day
        d, the occupancy is as it was, and every course from k on kept its
        slots or lost them. */
    method TryHours(k: nat, d: int, ghost a0: seq<seq<Slot>>) returns (ok: bool)
      requires k < |courses| && 0 <= d < NumDays
      requires CommittedState(courses, rooms, a0, grid, instructorSchedule, yearSchedule, k)
      requires KeptOrCleared(a0, assignedSlots, k)
      requires NoCompletionBefore(courses, rooms, a0, k, d, 0, 0)
      modifies this`grid, this`instructorSchedule, this`yearSchedule, this`assignedSlots
      decreases |courses| - k, 3
      ensures ok ==> IsCompletion(courses, rooms, a0, k, assignedSlots) && Committed(|courses|)
      ensures !ok ==> grid == old(grid) && instructorSchedule == old(instructorSchedule)
                      && yearSchedule == old(yearSchedule)
      ensures !ok ==> KeptOrCleared(a0, assignedSlots, k)
      ensures !ok ==> NoCompletionBefore(courses, rooms, a0, k, d + 1, 0, 0)
    {
      var requiredSlots := courses[k].hours;
      var h := 0;
      while h < NumHours - requiredSlots + 1
        invariant 0 <= h
        invariant grid == old(grid) && instructorSchedule == old(instructorSchedule)
                  && yearSchedule == old(yearSchedule)
        invariant KeptOrCleared(a0, assignedSlots, k)
        invariant NoCompletionBefore(courses, rooms, a0, k, d, h, 0)
      {
        ok := TryRooms(k, d, h, a0);
        if ok {
          return true;
        }
        NextHour(courses, rooms, a0, k, d, h);
        h := h + 1;
      }
      NextDay(courses, rooms, a0, k, d, h);
      return false;
    }

    /** The `for room in self.rooms` loop of `solve` for start hour h of
        day d. `a0` holds the slots `solve(k)` began with. On True the slots
        complete that prefix; on False no completion starts at (d, h), the
        occupancy is as it was, and every course from k on kept its slots
        or lost them. */
    method TryRooms(k: nat, d: int, h: int, ghost a0: seq<seq<Slot>>) returns (ok: bool)
      requires k < |courses| && 0 <= d < NumDays && 0 <= h < NumHours - courses[k].hours + 1
      requires CommittedState(courses, rooms, a0, grid, instructorSchedule, yearSchedule, k)
      requires KeptOrCleared(a0, assignedSlots, k)
      requires NoCompletionBefore(courses, rooms, a0, k, d, h, 0)
      modifies this`grid, this`instructorSchedule, this`yearSchedule, this`assignedSlots
      decreases |courses| - k, 2
      ensures ok ==> IsCompletion(courses, rooms, a0, k, assignedSlots) && Committed(|courses|)
      ensures !ok ==> grid == old(grid) && instructorSchedule == old(instructorSchedule)
                      && yearSchedule == old(yearSchedule)
      ensures !ok ==> KeptOrCleared(a0, assignedSlots, k)
      ensures !ok ==> NoCompletionBefore(courses, rooms, a0, k, d, h, |rooms|)
    {
      var r := 0;
      while r < |rooms|
        invariant 0 <= r <= |rooms|
        invariant grid == old(grid) && instructorSchedule == old(instructorSchedule)
                  && yearSchedule == old(yearSchedule)
        invariant KeptOrCleared(a0, assignedSlots, k)
        invariant NoCompletionBefore(courses, rooms, a0, k, d, h, r)
      {
        ok := TryRoom(k, d, h, r, a0);
        if ok {
          return true;
        }
        r := r + 1;
      }
      return false;
    }

    /** One pass of the room loop: check the block in room r with `is_valid`
        at every offset and, if it passes, commit, recurse and roll back. */
    method TryRoom(k: nat, d: int, h: int, r: int, ghost a0: seq<seq<Slot>>) returns (ok: bool)
      requires k < |courses| && 0 <= d < NumDays && 0 <= h < NumHours - courses[k].hours + 1 && 0 <= r < |rooms|
      requires CommittedState(courses, rooms, a0, grid, instructorSchedule, yearSchedule, k)
      requires KeptOrCleared(a0, assignedSlots, k)
      requires NoCompletionBefore(courses, rooms, a0, k, d, h, r)
      modifies this`grid, this`instructorSchedule, this`yearSchedule, this`assignedSlots
      decreases |courses| - k, 1
      ensures ok ==> IsCompletion(courses, rooms, a0, k, assignedSlots) && Committed(|courses|)
      ensures !ok ==> grid == old(grid) && instructorSchedule == old(instructorSchedule)
                      && yearSchedule == old(yearSchedule)
      ensures !ok ==> KeptOrCleared(a0, assignedSlots, k)
      ensures !ok ==> NoCompletionBefore(courses, rooms, a0, k, d, h, r + 1)
    {
      var course := courses[k];
      var room := rooms[r];
      var blockValid, temp := CheckBlock(course, d, h, room);
      if !blockValid {
        ExcludeInadmissible(courses, rooms, a0, grid, instructorSchedule, yearSchedule, k, d, h, r);
        return false;
      }
      ghost var a := assignedSlots;
      CommittedKeepsPrefix(courses, rooms, a0, grid, instructorSchedule, yearSchedule, k, a);
      ok := TryBlock(k, d, h, r, temp);
      if ok {
        CompletionOfPrefix(courses, rooms, a0, a, Block(d, h, room.name, Duration(course)), k, assignedSlots);
      } else {
        ExcludeFailedBranch(courses, rooms, a0, a, k, d, h, r);
        KeptOrClearedTrans(a0, a, assignedSlots, k);
      }
    }

    /** The commit loop applied to a block that passed the validator: the
        occupancy becomes the committed state of the first k+1 courses. */
    method CommitAdmissible(k: nat, d: int, h: int, r: int, temp: seq<DayHour>)
      requires Committed(k) && k < |courses|
      requires 0 <= d < NumDays && 0 <= h < NumHours - courses[k].hours + 1 && 0 <= r < |rooms|
      requires BlockAdmissible(grid, Lookup(instructorSchedule, courses[k].instructor),
                               Lookup(yearSchedule, courses[k].year), courses[k], d, h, rooms[r])
      requires temp == BlockHours(d, h, Duration(courses[k]))
      modifies this`grid, this`instructorSchedule, this`yearSchedule, this`assignedSlots
      ensures Committed(k + 1)
      ensures assignedSlots == old(assignedSlots)[k := Block(d, h, rooms[r].name, Duration(courses[k]))]
      ensures grid == old(grid) + BlockMap(assignedSlots[k], k)
      ensures ExtendedBy(old(instructorSchedule), old(yearSchedule), courses[k].instructor, courses[k].year, temp,
                         instructorSchedule, yearSchedule)
    {
      ghost var aPre, gPre, ischPre, yschPre := assignedSlots, grid, instructorSchedule, yearSchedule;
      CommitBlock(k, temp, rooms[r]);
      BlockWithRoom(d, h, rooms[r].name, Duration(courses[k]));
      CommitPreserves(courses, rooms, aPre, gPre, ischPre, yschPre, k, d, h, r, assignedSlots, grid, instructorSchedule, yearSchedule);
    }

    /** The body of `if block_valid:` in `solve`: commit the block, recurse,
        and on failure roll the block back. */
    method TryBlock(k: nat, d: int, h: int, r: int, temp: seq<DayHour>) returns (ok: bool)
      requires Committed(k) && k < |courses|
      requires 0 <= d < NumDays && 0 <= h < NumHours - courses[k].hours + 1 && 0 <= r < |rooms|
      requires BlockAdmissible(grid, Lookup(instructorSchedule, courses[k].instructor),
                               Lookup(yearSchedule, courses[k].year), courses[k], d, h, rooms[r])
      requires temp == BlockHours(d, h, Duration(courses[k]))
      modifies this`grid, this`instructorSchedule, this`yearSchedule, this`assignedSlots
      decreases |courses| - k, 0
      ensures ok ==> Committed(|courses|)
      ensures ok ==> IsCompletion(courses, rooms, old(assignedSlots)[k := Block(d, h, rooms[r].name, Duration(courses[k]))],
                                  k + 1, assignedSlots)
      ensures !ok ==> !Completable(courses, rooms, old(assignedSlots)[k := Block(d, h, rooms[r].name, Duration(courses[k]))],
                                   k + 1)
      ensures !ok ==> grid == old(grid) && instructorSchedule == old(instructorSchedule)
                      && yearSchedule == old(yearSchedule)
      ensures !ok ==> KeptOrCleared(old(assignedSlots), assignedSlots, k)
    {
      ghost var aPre, gPre, ischPre, yschPre := assignedSlots, grid, instructorSchedule, yearSchedule;
      var room := rooms[r];
      ghost var b := Block(d, h, room.name, Duration(courses[k]));
      CommitAdmissible(k, d, h, r, temp);
      ghost var a1 := assignedSlots;
      ok := Solve(k + 1);
      if ok {
        return;
      }
      ghost var a2 := assignedSlots;
      assert a2[k] == a2[..k + 1][k] == a1[..k + 1][k] == b;
      BlockHeld(gPre, ischPre, yschPre, courses[k], d, h, room, k, grid, instructorSchedule, yearSchedule);
      RollbackBlock(k, gPre, ischPre, yschPre);
      KeptOrClearedRollback(aPre, b, a2, k);
    }

    /** `run`: sort the courses (Labs first, longer first, stably), each
        course taking its slot list along, and search from the first course. */
    method Run() returns (ok: bool)
      requires |assignedSlots| == |courses|
      requires grid == map[] && instructorSchedule == map[] && yearSchedule == map[]
      modifies this`courses, this`grid, this`instructorSchedule, this`yearSchedule, this`assignedSlots
      ensures courses == SortForSearch(old(courses))
      ensures ok ==> |assignedSlots| == |courses| && PrefixPlaced(courses, rooms, assignedSlots, |courses|)
      ensures ok ==> Committed(|courses|)
      ensures !ok ==> !Completable(courses, rooms, SlotLists(SortEntries(Zip(old(courses), old(assignedSlots)))), 0)
      ensures !ok ==> grid == map[] && instructorSchedule == map[] && yearSchedule == map[]
      ensures !ok ==> KeptOrCleared(SlotLists(SortEntries(Zip(old(courses), old(assignedSlots)))), assignedSlots, 0)
    {
      var sorted := SortEntries(Zip(courses, assignedSlots));
      SortEntriesCourses(Zip(courses, assignedSlots));
      EntryListsLength(sorted);
      courses := Courses(sorted);
      assignedSlots := SlotLists(sorted);
      ok := Solve(0);
    }
  }
}
