/** Facts about the occupancy a committed prefix induces: it depends on the
    prefix only, committing one more block extends it, rolling the block back
    restores it, and a block the search rejects or abandons starts no completion. */
module OccupancyFacts {
  import opened Timetable

  predicate Distinct<T(==)>(s: seq<T>)
  {
    forall i, j :: 0 <= i < j < |s| ==> s[i] != s[j]
  }

  /** `list.remove(x)`: the first occurrence of x is dropped. Python raises
      ValueError when x is absent; the search never does that, so it is required. */
  function RemoveFirst<T(==)>(s: seq<T>, x: T): (r: seq<T>)
    requires x in s
    ensures |r| == |s| - 1
  {
    if s[0] == x then s[1..] else [s[0]] + RemoveFirst(s[1..], x)
  }

  /** Removing an appended element that the list did not hold before gives the
      list back without it, whatever was appended after it. */
  lemma {:induction false} RemoveFirstAppended<T>(p: seq<T>, x: T, rest: seq<T>)
    requires x !in p
    ensures x in p + [x] + rest
    ensures RemoveFirst(p + [x] + rest, x) == p + rest
  {
    if p != [] {
      assert (p + [x] + rest)[0] == p[0];
      assert (p + [x] + rest)[1..] == p[1..] + [x] + rest;
      RemoveFirstAppended(p[1..], x, rest);
      assert [p[0]] + (p[1..] + rest) == p + rest;
    }
  }

  /** The slots `temp_assignments` describes, in the room being committed. */
  function WithRoom(t: seq<DayHour>, name: string): (r: seq<Slot>)
    ensures |r| == |t|
  {
    seq(|t|, i requires 0 <= i < |t| => (t[i].0, t[i].1, name))
  }

  lemma WithRoomSnoc(t: seq<DayHour>, i: nat, name: string)
    requires i < |t|
    ensures WithRoom(t[..i + 1], name) == WithRoom(t[..i], name) + [(t[i].0, t[i].1, name)]
  {
  }

  lemma BlockWithRoom(d: int, h: int, name: string, n: nat)
    ensures WithRoom(BlockHours(d, h, n), name) == Block(d, h, name, n)
  {
  }

  lemma BlockShapes(d: int, h: int, name: string, n: nat)
    ensures DayHours(Block(d, h, name, n)) == BlockHours(d, h, n)
    ensures Distinct(Block(d, h, name, n)) && Distinct(BlockHours(d, h, n))
  {
  }

  lemma DayHoursSuffix(s: seq<Slot>, i: nat)
    requires i < |s|
    ensures DayHours(s[i..]) == [(s[i].0, s[i].1)] + DayHours(s[i + 1..])
  {
  }

  /** Adding one more grid entry of the block being committed. */
  lemma BlockMapSnoc(g: map<Slot, nat>, b: seq<Slot>, s: Slot, j: nat)
    ensures (g + BlockMap(b, j))[s := j] == g + BlockMap(b + [s], j)
  {
  }

  /** Deleting the grid entry of the first remaining slot of the block. */
  lemma BlockMapDrop(g: map<Slot, nat>, b: seq<Slot>, i: nat, j: nat)
    requires i < |b| && Distinct(b) && b[i] !in g
    ensures b[i] in g + BlockMap(b[i..], j)
    ensures (g + BlockMap(b[i..], j)) - {b[i]} == g + BlockMap(b[i + 1..], j)
  {
    assert b[i] in b[i..];
    assert b[i] !in b[i + 1..] by {
      forall m | i + 1 <= m < |b| ensures b[m] != b[i] {
      }
    }
  }

  /** The lists (isch, ysch) are the base lists with t appended to the list
      of instructor ins and to that of year y, and hold no empty list. */
  ghost predicate ExtendedBy(isch0: map<string, seq<DayHour>>, ysch0: map<int, seq<DayHour>>,
                             ins: string, y: int, t: seq<DayHour>,
                             isch: map<string, seq<DayHour>>, ysch: map<int, seq<DayHour>>)
  {
    && Lookup(isch, ins) == Lookup(isch0, ins) + t
    && (forall x {:trigger Lookup(isch, x)} :: x != ins ==> Lookup(isch, x) == Lookup(isch0, x))
    && Lookup(ysch, y) == Lookup(ysch0, y) + t
    && (forall x {:trigger Lookup(ysch, x)} :: x != y ==> Lookup(ysch, x) == Lookup(ysch0, x))
    && NoEmptyLists(isch) && NoEmptyLists(ysch)
  }

  /** One step of the commit loop: appending pair p to both lists. */
  lemma ExtendStep(isch0: map<string, seq<DayHour>>, ysch0: map<int, seq<DayHour>>,
                   ins: string, y: int, t: seq<DayHour>, p: DayHour,
                   isch: map<string, seq<DayHour>>, ysch: map<int, seq<DayHour>>)
    requires ExtendedBy(isch0, ysch0, ins, y, t, isch, ysch)
    ensures ExtendedBy(isch0, ysch0, ins, y, t + [p],
                       Store(isch, ins, Lookup(isch, ins) + [p]), Store(ysch, y, Lookup(ysch, y) + [p]))
  {
    assert Lookup(isch0, ins) + (t + [p]) == Lookup(isch, ins) + [p];
    assert Lookup(ysch0, y) + (t + [p]) == Lookup(ysch, y) + [p];
  }

  /** The slots of a committed block are distinct, and none of them (nor its
      pair) was occupied before the block was committed. */
  ghost predicate BlockFresh(g0: map<Slot, nat>, p0: seq<DayHour>, q0: seq<DayHour>, b: seq<Slot>)
  {
    && Distinct(b)
    && forall i :: 0 <= i < |b| ==> b[i] !in g0 && (b[i].0, b[i].1) !in p0 && (b[i].0, b[i].1) !in q0
  }

  /** The occupancy (g, isch, ysch) is the base occupancy plus the slots
      b[i..] of course j, whose instructor is ins and whose year is y. */
  ghost predicate HeldFrom(g0: map<Slot, nat>, isch0: map<string, seq<DayHour>>, ysch0: map<int, seq<DayHour>>,
                           ins: string, y: int, b: seq<Slot>, i: nat, j: nat,
                           g: map<Slot, nat>, isch: map<string, seq<DayHour>>, ysch: map<int, seq<DayHour>>)
  {
    && i <= |b|
    && g == g0 + BlockMap(b[i..], j)
    && Lookup(isch, ins) == Lookup(isch0, ins) + DayHours(b[i..])
    && (forall x {:trigger Lookup(isch, x)} :: x != ins ==> Lookup(isch, x) == Lookup(isch0, x))
    && Lookup(ysch, y) == Lookup(ysch0, y) + DayHours(b[i..])
    && (forall x {:trigger Lookup(ysch, x)} :: x != y ==> Lookup(ysch, x) == Lookup(ysch0, x))
  }

  /** A committed admissible block is fresh against the occupancy before it,
      and the occupancy after it holds the whole block. */
  lemma BlockHeld(g0: map<Slot, nat>, isch0: map<string, seq<DayHour>>, ysch0: map<int, seq<DayHour>>,
                  c: Course, d: int, h: int, room: Room, j: nat,
                  g: map<Slot, nat>, isch: map<string, seq<DayHour>>, ysch: map<int, seq<DayHour>>)
    requires BlockAdmissible(g0, Lookup(isch0, c.instructor), Lookup(ysch0, c.year), c, d, h, room)
    requires g == g0 + BlockMap(Block(d, h, room.name, Duration(c)), j)
    requires ExtendedBy(isch0, ysch0, c.instructor, c.year, BlockHours(d, h, Duration(c)), isch, ysch)
    ensures BlockFresh(g0, Lookup(isch0, c.instructor), Lookup(ysch0, c.year), Block(d, h, room.name, Duration(c)))
    ensures HeldFrom(g0, isch0, ysch0, c.instructor, c.year, Block(d, h, room.name, Duration(c)), 0, j, g, isch, ysch)
  {
    var b := Block(d, h, room.name, Duration(c));
    BlockShapes(d, h, room.name, Duration(c));
    assert b[0..] == b;
    forall i | 0 <= i < |b|
      ensures b[i] !in g0 && (b[i].0, b[i].1) !in Lookup(isch0, c.instructor) && (b[i].0, b[i].1) !in Lookup(ysch0, c.year)
    {
      assert Admissible(g0, Lookup(isch0, c.instructor), Lookup(ysch0, c.year), c, d, h + i, room);
    }
  }

  /** One step of the rollback loop: slot b[i] is in the grid and its pair in
      both lists; deleting the entry and removing the first occurrence of the
      pair from each list leaves the base plus b[i+1..]. */
  lemma RollbackStep(g0: map<Slot, nat>, isch0: map<string, seq<DayHour>>, ysch0: map<int, seq<DayHour>>,
                     ins: string, y: int, b: seq<Slot>, i: nat, j: nat,
                     g: map<Slot, nat>, isch: map<string, seq<DayHour>>, ysch: map<int, seq<DayHour>>)
    requires i < |b| && BlockFresh(g0, Lookup(isch0, ins), Lookup(ysch0, y), b)
    requires HeldFrom(g0, isch0, ysch0, ins, y, b, i, j, g, isch, ysch)
    ensures b[i] in g
    ensures (b[i].0, b[i].1) in Lookup(isch, ins) && (b[i].0, b[i].1) in Lookup(ysch, y)
    ensures HeldFrom(g0, isch0, ysch0, ins, y, b, i + 1, j, g - {b[i]},
                     Store(isch, ins, RemoveFirst(Lookup(isch, ins), (b[i].0, b[i].1))),
                     Store(ysch, y, RemoveFirst(Lookup(ysch, y), (b[i].0, b[i].1))))
  {
    BlockMapDrop(g0, b, i, j);
    DayHoursSuffix(b, i);
    RemoveStep(isch0, isch, ins, (b[i].0, b[i].1), DayHours(b[i + 1..]));
    RemoveStep(ysch0, ysch, y, (b[i].0, b[i].1), DayHours(b[i + 1..]));
  }

  /** `m[key].remove(x)` on a list that is the base list, then x, then
      `rest`, where the base list does not hold x: the list becomes the base
      list then `rest`, and no other key changes. */
  lemma RemoveStep<K(!new)>(m0: map<K, seq<DayHour>>, m: map<K, seq<DayHour>>, key: K, x: DayHour, rest: seq<DayHour>)
    requires x !in Lookup(m0, key)
    requires Lookup(m, key) == Lookup(m0, key) + ([x] + rest)
    ensures x in Lookup(m, key)
    ensures var m1 := Store(m, key, RemoveFirst(Lookup(m, key), x));
      && Lookup(m1, key) == Lookup(m0, key) + rest
      && forall k {:trigger Lookup(m1, k)} :: k != key ==> Lookup(m1, k) == Lookup(m, k)
  {
    assert Lookup(m, key) == Lookup(m0, key) + [x] + rest;
    RemoveFirstAppended(Lookup(m0, key), x, rest);
  }


  /** With no slots left, the occupancy is the base occupancy again. */
  lemma RollbackDone(g0: map<Slot, nat>, isch0: map<string, seq<DayHour>>, ysch0: map<int, seq<DayHour>>,
                     ins: string, y: int, b: seq<Slot>, j: nat,
                     g: map<Slot, nat>, isch: map<string, seq<DayHour>>, ysch: map<int, seq<DayHour>>)
    requires HeldFrom(g0, isch0, ysch0, ins, y, b, |b|, j, g, isch, ysch)
    requires NoEmptyLists(isch0) && NoEmptyLists(ysch0) && NoEmptyLists(isch) && NoEmptyLists(ysch)
    ensures g == g0 && isch == isch0 && ysch == ysch0
  {
    assert b[|b|..] == [] && DayHours(b[|b|..]) == [];
    forall x ensures Lookup(ysch, x) == Lookup(ysch0, x) {
      if x == y {
        assert Lookup(ysch, y) == Lookup(ysch0, y) + [];
      }
    }
    LookupExtensional(isch, isch0);
    LookupExtensional(ysch, ysch0);
  }

  /** The occupancy induced by the first k blocks depends on those blocks only. */
  lemma {:induction false} OccupancyDependsOnPrefix(cs: seq<Course>, a: seq<seq<Slot>>, b: seq<seq<Slot>>, k: nat)
    requires k <= |a| && k <= |b| && k <= |cs| && a[..k] == b[..k]
    ensures GridOf(a, k) == GridOf(b, k)
    ensures forall ins :: InstrOf(cs, a, ins, k) == InstrOf(cs, b, ins, k)
    ensures forall y :: CohortOf(cs, a, y, k) == CohortOf(cs, b, y, k)
  {
    if k > 0 {
      assert a[..k - 1] == a[..k][..k - 1] && b[..k - 1] == b[..k][..k - 1];
      assert a[k - 1] == a[..k][k - 1] && b[k - 1] == b[..k][k - 1];
      OccupancyDependsOnPrefix(cs, a, b, k - 1);
    }
  }

  /** Whether the first k courses are placed depends on their blocks only. */
  lemma PlacedDependsOnPrefix(cs: seq<Course>, rooms: seq<Room>, a: seq<seq<Slot>>, b: seq<seq<Slot>>, k: nat)
    requires k <= |a| && k <= |b| && k <= |cs| && a[..k] == b[..k]
    ensures PrefixPlaced(cs, rooms, a, k) <==> PrefixPlaced(cs, rooms, b, k)
  {
    forall j | 0 <= j < k
      ensures Placed(cs, rooms, a, j) <==> Placed(cs, rooms, b, j)
    {
      assert a[..j] == a[..k][..j] && b[..j] == b[..k][..j];
      assert a[j] == a[..k][j] && b[j] == b[..k][j];
      OccupancyDependsOnPrefix(cs, a, b, j);
      assert forall d, h, ri :: PlacementOk(cs, rooms, a, j, d, h, ri) <==> PlacementOk(cs, rooms, b, j, d, h, ri);
    }
  }

  /** Committing an admissible block for course k places the first k+1
      courses and extends each occupancy structure by exactly that block. */
  lemma CommitExtends(cs: seq<Course>, rooms: seq<Room>, a: seq<seq<Slot>>, k: nat,
                      d: int, h: int, ri: int)
    requires |a| == |cs| && k < |cs| && PrefixPlaced(cs, rooms, a, k)
    requires 0 <= d < NumDays && 0 <= h < NumHours - cs[k].hours + 1 && 0 <= ri < |rooms|
    requires BlockAdmissible(GridOf(a, k), InstrOf(cs, a, cs[k].instructor, k),
                             CohortOf(cs, a, cs[k].year, k), cs[k], d, h, rooms[ri])
    ensures var a1 := a[k := Block(d, h, rooms[ri].name, Duration(cs[k]))];
      && PrefixPlaced(cs, rooms, a1, k + 1)
      && GridOf(a1, k + 1) == GridOf(a, k) + BlockMap(a1[k], k)
      && (forall ins :: InstrOf(cs, a1, ins, k + 1) ==
            InstrOf(cs, a, ins, k) + (if ins == cs[k].instructor then DayHours(a1[k]) else []))
      && (forall y :: CohortOf(cs, a1, y, k + 1) ==
            CohortOf(cs, a, y, k) + (if y == cs[k].year then DayHours(a1[k]) else []))
  {
    var a1 := a[k := Block(d, h, rooms[ri].name, Duration(cs[k]))];
    assert a1[..k] == a[..k];
    OccupancyDependsOnPrefix(cs, a, a1, k);
    PlacedDependsOnPrefix(cs, rooms, a, a1, k);
    assert PlacementOk(cs, rooms, a1, k, d, h, ri);
  }

  /** The occupancy structures (grid, instructor lists, year lists) are
      exactly those of the blocks of courses 0 .. k-1 committed in order,
      and each of those blocks passed the validator. */
  ghost predicate CommittedState(cs: seq<Course>, rooms: seq<Room>, a: seq<seq<Slot>>,
                                 grid: map<Slot, nat>, isch: map<string, seq<DayHour>>,
                                 ysch: map<int, seq<DayHour>>, k: nat)
  {
    && |a| == |cs| && k <= |cs|
    && grid == GridOf(a, k)
    && (forall ins {:trigger Lookup(isch, ins)} :: Lookup(isch, ins) == InstrOf(cs, a, ins, k))
    && (forall y {:trigger Lookup(ysch, y)} :: Lookup(ysch, y) == CohortOf(cs, a, y, k))
    && NoEmptyLists(isch) && NoEmptyLists(ysch)
    && PrefixPlaced(cs, rooms, a, k)
  }

  /** Committing an admissible block of course k, as `solve` does, yields the
      committed state of the first k+1 courses. */
  lemma CommitPreserves(cs: seq<Course>, rooms: seq<Room>, a: seq<seq<Slot>>,
                        grid: map<Slot, nat>, isch: map<string, seq<DayHour>>, ysch: map<int, seq<DayHour>>,
                        k: nat, d: int, h: int, ri: int,
                        a1: seq<seq<Slot>>, grid1: map<Slot, nat>, isch1: map<string, seq<DayHour>>, ysch1: map<int, seq<DayHour>>)
    requires CommittedState(cs, rooms, a, grid, isch, ysch, k) && k < |cs|
    requires 0 <= d < NumDays && 0 <= h < NumHours - cs[k].hours + 1 && 0 <= ri < |rooms|
    requires a1 == a[k := Block(d, h, rooms[ri].name, Duration(cs[k]))]
    requires BlockAdmissible(grid, Lookup(isch, cs[k].instructor), Lookup(ysch, cs[k].year), cs[k], d, h, rooms[ri])
    requires grid1 == grid + BlockMap(Block(d, h, rooms[ri].name, Duration(cs[k])), k)
    requires ExtendedBy(isch, ysch, cs[k].instructor, cs[k].year, BlockHours(d, h, Duration(cs[k])), isch1, ysch1)
    ensures CommittedState(cs, rooms, a1, grid1, isch1, ysch1, k + 1)
  {
    var b := Block(d, h, rooms[ri].name, Duration(cs[k]));
    BlockShapes(d, h, rooms[ri].name, Duration(cs[k]));
    CommitExtends(cs, rooms, a, k, d, h, ri);
    assert GridOf(a1, k + 1) == grid1;
    forall ins ensures Lookup(isch1, ins) == InstrOf(cs, a1, ins, k + 1) {
      if ins == cs[k].instructor {
        assert DayHours(a1[k]) == BlockHours(d, h, Duration(cs[k]));
      }
    }
    forall y ensures Lookup(ysch1, y) == CohortOf(cs, a1, y, k + 1) {
      if y == cs[k].year {
        assert DayHours(a1[k]) == BlockHours(d, h, Duration(cs[k]));
      }
    }
  }

  /** Slots of courses before k are those of a; every later course keeps
      its slots of a or has none. */
  predicate KeptOrCleared(a: seq<seq<Slot>>, b: seq<seq<Slot>>, k: nat)
  {
    && |b| == |a| && k <= |a|
    && b[..k] == a[..k]
    && forall j :: k <= j < |a| ==> b[j] == a[j] || b[j] == []
  }

  lemma KeptOrClearedTrans(a: seq<seq<Slot>>, b: seq<seq<Slot>>, c: seq<seq<Slot>>, k: nat)
    requires KeptOrCleared(a, b, k) && KeptOrCleared(b, c, k)
    ensures KeptOrCleared(a, c, k)
  {
  }

  /** Committing block x of course k, failing further on, and clearing
      course k again keeps or clears every course from k on. */
  lemma KeptOrClearedRollback(a: seq<seq<Slot>>, x: seq<Slot>, b: seq<seq<Slot>>, k: nat)
    requires k < |a| && KeptOrCleared(a[k := x], b, k + 1)
    ensures KeptOrCleared(a, b[k := []], k)
  {
    assert b[k := []][..k] == b[..k + 1][..k];
    assert a[..k] == a[k := x][..k + 1][..k];
  }

  /** Replacing the blocks of courses k, k+1, ... keeps the committed state
      of the first k courses. */
  lemma CommittedKeepsPrefix(cs: seq<Course>, rooms: seq<Room>, a: seq<seq<Slot>>,
                             grid: map<Slot, nat>, isch: map<string, seq<DayHour>>, ysch: map<int, seq<DayHour>>,
                             k: nat, a': seq<seq<Slot>>)
    requires CommittedState(cs, rooms, a, grid, isch, ysch, k)
    requires KeptOrCleared(a, a', k)
    ensures CommittedState(cs, rooms, a', grid, isch, ysch, k)
  {
    OccupancyDependsOnPrefix(cs, a, a', k);
    PlacedDependsOnPrefix(cs, rooms, a, a', k);
  }

  /** A completion of the first k+1 blocks of a[k := x] completes the first
      k blocks of a0 when a agrees with a0 on them. */
  lemma CompletionOfPrefix(cs: seq<Course>, rooms: seq<Room>, a0: seq<seq<Slot>>, a: seq<seq<Slot>>,
                           x: seq<Slot>, k: nat, a': seq<seq<Slot>>)
    requires KeptOrCleared(a0, a, k) && k < |a|
    requires IsCompletion(cs, rooms, a[k := x], k + 1, a')
    ensures IsCompletion(cs, rooms, a0, k, a')
  {
    assert a'[..k] == a'[..k + 1][..k];
    assert a[..k] == a[k := x][..k + 1][..k];
  }

  /** The lexicographic position (d', h', r') is not before (d, h, r). */
  predicate LexAtLeast(d': int, h': int, r': int, d: int, h: int, r: int)
  {
    d' > d || (d' == d && (h' > h || (h' == h && r' >= r)))
  }

  /** No completion of the first k blocks of a0 places course k at a
      candidate the enumeration has already passed. */
  ghost predicate NoCompletionBefore(cs: seq<Course>, rooms: seq<Room>, a0: seq<seq<Slot>>,
                                     k: nat, d: int, h: int, r: int)
    requires k < |cs|
  {
    forall a', d', h', ri' ::
      IsCompletion(cs, rooms, a0, k, a') && PlacementOk(cs, rooms, a', k, d', h', ri') ==>
        LexAtLeast(d', h', ri', d, h, r)
  }

  /** Before the first candidate nothing has been passed. */
  lemma NothingBeforeStart(cs: seq<Course>, rooms: seq<Room>, a0: seq<seq<Slot>>, k: nat)
    requires k < |cs|
    ensures NoCompletionBefore(cs, rooms, a0, k, 0, 0, 0)
  {
  }

  /** A candidate that fails the validator starts no completion. */
  lemma ExcludeInadmissible(cs: seq<Course>, rooms: seq<Room>, a0: seq<seq<Slot>>,
                            grid: map<Slot, nat>, isch: map<string, seq<DayHour>>, ysch: map<int, seq<DayHour>>,
                            k: nat, d: int, h: int, r: int)
    requires k < |cs| && 0 <= r < |rooms| && CommittedState(cs, rooms, a0, grid, isch, ysch, k)
    requires !BlockAdmissible(grid, Lookup(isch, cs[k].instructor), Lookup(ysch, cs[k].year), cs[k], d, h, rooms[r])
    requires NoCompletionBefore(cs, rooms, a0, k, d, h, r)
    ensures NoCompletionBefore(cs, rooms, a0, k, d, h, r + 1)
  {
    assert Lookup(isch, cs[k].instructor) == InstrOf(cs, a0, cs[k].instructor, k);
    assert Lookup(ysch, cs[k].year) == CohortOf(cs, a0, cs[k].year, k);
    forall a' | IsCompletion(cs, rooms, a0, k, a')
      ensures !PlacementOk(cs, rooms, a', k, d, h, r)
    {
      OccupancyDependsOnPrefix(cs, a', a0, k);
    }
  }

  /** A candidate after whose commit the rest could not be placed starts no completion. */
  lemma ExcludeFailedBranch(cs: seq<Course>, rooms: seq<Room>, a0: seq<seq<Slot>>, a: seq<seq<Slot>>,
                            k: nat, d: int, h: int, r: int)
    requires k < |cs| && KeptOrCleared(a0, a, k) && k < |a| && 0 <= r < |rooms|
    requires !Completable(cs, rooms, a[k := Block(d, h, rooms[r].name, Duration(cs[k]))], k + 1)
    requires NoCompletionBefore(cs, rooms, a0, k, d, h, r)
    ensures NoCompletionBefore(cs, rooms, a0, k, d, h, r + 1)
  {
    var a1 := a[k := Block(d, h, rooms[r].name, Duration(cs[k]))];
    assert a1[..k] == a[..k];
    forall a' | IsCompletion(cs, rooms, a0, k, a')
      ensures !PlacementOk(cs, rooms, a', k, d, h, r)
    {
      if PlacementOk(cs, rooms, a', k, d, h, r) {
        assert a'[..k + 1] == a'[..k] + [a'[k]];
        assert a1[..k + 1] == a1[..k] + [a1[k]];
        assert IsCompletion(cs, rooms, a1, k + 1, a');
        assert false;
      }
    }
  }

  /** All rooms tried at start hour h: move on to hour h+1. */
  lemma NextHour(cs: seq<Course>, rooms: seq<Room>, a0: seq<seq<Slot>>, k: nat, d: int, h: int)
    requires k < |cs| && NoCompletionBefore(cs, rooms, a0, k, d, h, |rooms|)
    ensures NoCompletionBefore(cs, rooms, a0, k, d, h + 1, 0)
  {
  }

  /** All start hours of day d tried: move on to day d+1. */
  lemma NextDay(cs: seq<Course>, rooms: seq<Room>, a0: seq<seq<Slot>>, k: nat, d: int, h: int)
    requires k < |cs| && h >= NumHours - cs[k].hours + 1
    requires NoCompletionBefore(cs, rooms, a0, k, d, h, 0)
    ensures NoCompletionBefore(cs, rooms, a0, k, d + 1, 0, 0)
  {
  }

  /** All days tried: the committed prefix has no completion. */
  lemma Exhausted(cs: seq<Course>, rooms: seq<Room>, a0: seq<seq<Slot>>, k: nat)
    requires k < |cs| && NoCompletionBefore(cs, rooms, a0, k, NumDays, 0, 0)
    ensures !Completable(cs, rooms, a0, k)
  {
    forall a' | IsCompletion(cs, rooms, a0, k, a')
      ensures !Placed(cs, rooms, a', k)
    {
    }
  }
}
