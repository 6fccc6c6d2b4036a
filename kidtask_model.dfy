/** The task and wish reward ledger of KidTask: the records, their CSV line
    format, the level arithmetic, the wish filter of the dashboard and the
    state change made by each handler of the dashboard, as values. */
module KidTaskModel {
  import opened JavaLang

  datatype TaskStatus = Pending | Completed | Approved
  datatype WishStatus = Requested | Approved | Redeemed
  datatype UserRole = Child | Parent | Teacher

  datatype Task = Task(id: string, title: string, description: string, points: Int32,
                       status: TaskStatus, rating: Int32, addedBy: string)

  datatype Wish = Wish(id: string, name: string, cost: Int32, minLevel: Int32, status: WishStatus)

  /** Points per level, the divisor of `getLevel` and of the progress bar. */
  const PointsPerLevel: int := 50

  // ---------------------------------------------------------------------
  // Enum names: `toString()` and `valueOf`
  // ---------------------------------------------------------------------

  /** `TaskStatus.valueOf(s)`: the constant spelled exactly s; any other text throws. */
  function TaskStatusOf(s: string): (r: Option<TaskStatus>)
    ensures r.Some? <==> s == "PENDING" || s == "COMPLETED" || s == "APPROVED"
  {
    if s == "PENDING" then Some(TaskStatus.Pending)
    else if s == "COMPLETED" then Some(TaskStatus.Completed)
    else if s == "APPROVED" then Some(TaskStatus.Approved)
    else None
  }

  /** The name a task status prints as; `valueOf` reads it back. */
  function TaskStatusName(st: TaskStatus): (s: string)
    ensures s != "" && ',' !in s
    ensures TaskStatusOf(s) == Some(st)
  {
    match st
    case Pending => "PENDING"
    case Completed => "COMPLETED"
    case Approved => "APPROVED"
  }

  /** `WishStatus.valueOf(s)`. */
  function WishStatusOf(s: string): (r: Option<WishStatus>)
    ensures r.Some? <==> s == "REQUESTED" || s == "APPROVED" || s == "REDEEMED"
  {
    if s == "REQUESTED" then Some(WishStatus.Requested)
    else if s == "APPROVED" then Some(WishStatus.Approved)
    else if s == "REDEEMED" then Some(WishStatus.Redeemed)
    else None
  }

  /** The name a wish status prints as; `valueOf` reads it back. */
  function WishStatusName(st: WishStatus): (s: string)
    ensures s != "" && ',' !in s
    ensures WishStatusOf(s) == Some(st)
  {
    match st
    case Requested => "REQUESTED"
    case Approved => "APPROVED"
    case Redeemed => "REDEEMED"
  }

  // ---------------------------------------------------------------------
  // CSV lines
  // ---------------------------------------------------------------------

  /** `Task.toCSV`: the seven fields joined by commas, ints in decimal. */
  function TaskToCSV(t: Task): (line: string)
    ensures line == JoinCommas(TaskFields(t))
  {
    JoinSeven(TaskFields(t));
    t.id + "," + t.title + "," + t.description + "," + IntToString(t.points) + ","
      + TaskStatusName(t.status) + "," + IntToString(t.rating) + "," + t.addedBy
  }

  /** `Task.fromCSV`: split at commas and read the first seven pieces; too few
      pieces, a malformed int or an unknown status throws (`None`). */
  function TaskFromCSV(line: string): (r: Option<Task>)
    ensures var parts := JavaSplit(line);
      r.Some? <==> |parts| >= 7 && ParseInt(parts[3]).Some? && TaskStatusOf(parts[4]).Some?
                   && ParseInt(parts[5]).Some?
    ensures r.Some? ==> ',' !in r.value.id && ',' !in r.value.title
                        && ',' !in r.value.description && ',' !in r.value.addedBy
  {
    var parts := JavaSplit(line);
    if |parts| < 7 then None
    else
      match (ParseInt(parts[3]), TaskStatusOf(parts[4]), ParseInt(parts[5]))
      case (Some(points), Some(status), Some(rating)) =>
        Some(Task(parts[0], parts[1], parts[2], points, status, rating, parts[6]))
      case _ => None
  }

  /** `Wish.toCSV`. */
  function WishToCSV(w: Wish): (line: string)
    ensures line == JoinCommas(WishFields(w))
  {
    JoinFive(WishFields(w));
    w.id + "," + w.name + "," + IntToString(w.cost) + "," + IntToString(w.minLevel) + ","
      + WishStatusName(w.status)
  }

  /** `Wish.fromCSV`. */
  function WishFromCSV(line: string): (r: Option<Wish>)
    ensures var parts := JavaSplit(line);
      r.Some? <==> |parts| >= 5 && ParseInt(parts[2]).Some? && ParseInt(parts[3]).Some?
                   && WishStatusOf(parts[4]).Some?
    ensures r.Some? ==> ',' !in r.value.id && ',' !in r.value.name
  {
    var parts := JavaSplit(line);
    if |parts| < 5 then None
    else
      match (ParseInt(parts[2]), ParseInt(parts[3]), WishStatusOf(parts[4]))
      case (Some(cost), Some(minLevel), Some(status)) =>
        Some(Wish(parts[0], parts[1], cost, minLevel, status))
      case _ => None
  }

  /** The fields of a task line, in the order `toCSV` writes them. */
  function TaskFields(t: Task): (f: seq<string>)
    ensures |f| == 7
  {
    [t.id, t.title, t.description, IntToString(t.points), TaskStatusName(t.status),
     IntToString(t.rating), t.addedBy]
  }

  function WishFields(w: Wish): (f: seq<string>)
    ensures |f| == 5
  {
    [w.id, w.name, IntToString(w.cost), IntToString(w.minLevel), WishStatusName(w.status)]
  }

  /** Seven fields joined by commas, written out. */
  lemma JoinSeven(f: seq<string>)
    requires |f| == 7
    ensures JoinCommas(f) == f[0] + "," + f[1] + "," + f[2] + "," + f[3] + "," + f[4] + "," + f[5] + "," + f[6]
  {
    JoinCommasSnoc(f[..2]);
    JoinCommasSnoc(f[..3]);
    JoinCommasSnoc(f[..4]);
    JoinCommasSnoc(f[..5]);
    JoinCommasSnoc(f[..6]);
    JoinCommasSnoc(f);
    assert f[..2][..1] == [f[0]] && f[..3][..2] == f[..2] && f[..4][..3] == f[..3];
    assert f[..5][..4] == f[..4] && f[..6][..5] == f[..5];
  }

  /** Five fields joined by commas, written out. */
  lemma JoinFive(f: seq<string>)
    requires |f| == 5
    ensures JoinCommas(f) == f[0] + "," + f[1] + "," + f[2] + "," + f[3] + "," + f[4]
  {
    JoinCommasSnoc(f[..2]);
    JoinCommasSnoc(f[..3]);
    JoinCommasSnoc(f[..4]);
    JoinCommasSnoc(f);
    assert f[..2][..1] == [f[0]] && f[..3][..2] == f[..2] && f[..4][..3] == f[..3];
  }

  /** Reading back the line a task is saved as gives the task, provided its
      text fields hold no comma and `addedBy` is not empty. */
  lemma TaskCSVRoundTrip(t: Task)
    requires ',' !in t.id && ',' !in t.title && ',' !in t.description && ',' !in t.addedBy
    requires t.addedBy != ""
    ensures TaskFromCSV(TaskToCSV(t)) == Some(t)
  {
    var f := TaskFields(t);
    JoinSeven(f);
    SplitOfJoin(f);
    ParseIntToString(t.points);
    ParseIntToString(t.rating);
  }

  /** With an empty `addedBy` the trailing empty piece is dropped by the split,
      and reading the line back throws. */
  lemma TaskCSVEmptyAddedBy(t: Task)
    requires ',' !in t.id && ',' !in t.title && ',' !in t.description
    requires t.addedBy == ""
    ensures TaskFromCSV(TaskToCSV(t)) == None
  {
    var f := TaskFields(t);
    JoinSeven(f);
    SplitOfJoinEmptyLast(f);
  }

  /** Reading back the line a wish is saved as gives the wish, provided its
      id and name hold no comma. */
  lemma WishCSVRoundTrip(w: Wish)
    requires ',' !in w.id && ',' !in w.name
    ensures WishFromCSV(WishToCSV(w)) == Some(w)
  {
    var f := WishFields(w);
    JoinFive(f);
    SplitOfJoin(f);
    ParseIntToString(w.cost);
    ParseIntToString(w.minLevel);
  }

  // ---------------------------------------------------------------------
  // Level and progress
  // ---------------------------------------------------------------------

  /** `ChildStats.getLevel`: one plus the points earned divided by 50, with
      Java's division truncating toward zero. */
  function Level(total: Int32): (level: Int32)
    ensures 0 <= total ==> PointsPerLevel * (level - 1) <= total < PointsPerLevel * level
    ensures total < 0 ==> PointsPerLevel * (level - 2) < total <= PointsPerLevel * (level - 1)
  {
    1 + JavaDiv(total, PointsPerLevel)
  }

  /** The level is at least one exactly when fewer than 50 points have been lost. */
  lemma LevelAtLeastOne(total: Int32)
    ensures Level(total) >= 1 <==> total > -PointsPerLevel
  {
    if total < 0 {
      JavaDivRem(total, PointsPerLevel);
    }
  }

  /** Earning more never lowers the level. */
  lemma LevelMonotone(a: Int32, b: Int32)
    requires a <= b
    ensures Level(a) <= Level(b)
  {
    JavaDivMonotone(a, b, PointsPerLevel);
  }

  /** The value of the dashboard's progress bar, `totalPointsEarned % 50`. */
  function Progress(total: Int32): (p: int)
    ensures 0 <= total ==> 0 <= p < PointsPerLevel
    ensures total < 0 ==> -PointsPerLevel < p <= 0
    ensures total == PointsPerLevel * (Level(total) - 1) + p
  {
    JavaDivRem(total, PointsPerLevel);
    JavaRem(total, PointsPerLevel)
  }

  // ---------------------------------------------------------------------
  // The wish table
  // ---------------------------------------------------------------------

  /** The rows of the wish table: a child does not see the wishes whose
      minimum level is above the current level; other roles see all. */
  function VisibleWishes(ws: seq<Wish>, role: UserRole, level: int): (shown: seq<Wish>)
    ensures |shown| <= |ws|
  {
    if ws == [] then []
    else
      (if role == UserRole.Child && ws[0].minLevel > level then [] else [ws[0]])
        + VisibleWishes(ws[1..], role, level)
  }

  /** A wish is shown exactly when it is in the list and the role or the
      level allows it. */
  lemma {:induction false} VisibleWishesMembership(ws: seq<Wish>, role: UserRole, level: int, w: Wish)
    ensures (w in VisibleWishes(ws, role, level))
              <==> (w in ws && (role != UserRole.Child || w.minLevel <= level))
  {
    if ws != [] {
      VisibleWishesMembership(ws[1..], role, level, w);
      assert ws == [ws[0]] + ws[1..];
    }
  }

  /** The filter works piecewise, so the shown wishes keep their order. */
  lemma {:induction false} VisibleWishesAppend(a: seq<Wish>, b: seq<Wish>, role: UserRole, level: int)
    ensures VisibleWishes(a + b, role, level) == VisibleWishes(a, role, level) + VisibleWishes(b, role, level)
  {
    if a != [] {
      VisibleWishesAppend(a[1..], b, role, level);
      assert (a + b)[1..] == a[1..] + b;
    } else {
      assert a + b == b;
    }
  }

  /** Parents and teachers see every wish. */
  lemma {:induction false} VisibleWishesAll(ws: seq<Wish>, role: UserRole, level: int)
    requires role != UserRole.Child
    ensures VisibleWishes(ws, role, level) == ws
  {
    if ws != [] {
      VisibleWishesAll(ws[1..], role, level);
      assert ws == [ws[0]] + ws[1..];
    }
  }

  // ---------------------------------------------------------------------
  // The searches the handlers make
  // ---------------------------------------------------------------------

  predicate PendingWithId(t: Task, id: string)
  {
    t.id == id && t.status == TaskStatus.Pending
  }

  predicate RequestedWithId(w: Wish, id: string)
  {
    w.id == id && w.status == WishStatus.Requested
  }

  /** Where `markTaskCompleted` stops: the first task with the id that is still pending. */
  function FirstPendingTask(ts: seq<Task>, id: string): (r: Option<nat>)
    ensures r.Some? ==> r.value < |ts| && PendingWithId(ts[r.value], id)
    ensures r.Some? ==> forall j :: 0 <= j < r.value ==> !PendingWithId(ts[j], id)
    ensures r.None? ==> forall j :: 0 <= j < |ts| ==> !PendingWithId(ts[j], id)
  {
    if ts == [] then None
    else if PendingWithId(ts[0], id) then Some(0)
    else
      match FirstPendingTask(ts[1..], id)
      case None => None
      case Some(i) => Some(i + 1)
  }

  /** What `showRateTaskDialog` selects: its loop keeps overwriting the
      selection, so it ends on the last task with the id. */
  function LastTaskWithId(ts: seq<Task>, id: string): (r: Option<nat>)
    ensures r.Some? ==> r.value < |ts| && ts[r.value].id == id
    ensures r.Some? ==> forall j :: r.value < j < |ts| ==> ts[j].id != id
    ensures r.None? ==> forall j :: 0 <= j < |ts| ==> ts[j].id != id
  {
    if ts == [] then None
    else if ts[|ts| - 1].id == id then Some(|ts| - 1)
    else LastTaskWithId(ts[..|ts| - 1], id)
  }

  /** Where `approveWish` stops: the first wish with the id that is still requested. */
  function FirstRequestedWish(ws: seq<Wish>, id: string): (r: Option<nat>)
    ensures r.Some? ==> r.value < |ws| && RequestedWithId(ws[r.value], id)
    ensures r.Some? ==> forall j :: 0 <= j < r.value ==> !RequestedWithId(ws[j], id)
    ensures r.None? ==> forall j :: 0 <= j < |ws| ==> !RequestedWithId(ws[j], id)
  {
    if ws == [] then None
    else if RequestedWithId(ws[0], id) then Some(0)
    else
      match FirstRequestedWish(ws[1..], id)
      case None => None
      case Some(i) => Some(i + 1)
  }

  /** Where `redeemWish` stops: the first wish with the id, whatever its status. */
  function FirstWishWithId(ws: seq<Wish>, id: string): (r: Option<nat>)
    ensures r.Some? ==> r.value < |ws| && ws[r.value].id == id
    ensures r.Some? ==> forall j :: 0 <= j < r.value ==> ws[j].id != id
    ensures r.None? ==> forall j :: 0 <= j < |ws| ==> ws[j].id != id
  {
    if ws == [] then None
    else if ws[0].id == id then Some(0)
    else
      match FirstWishWithId(ws[1..], id)
      case None => None
      case Some(i) => Some(i + 1)
  }

  // ---------------------------------------------------------------------
  // The handlers, as state changes
  // ---------------------------------------------------------------------

  /** Everything the handlers read and write: the two lists, the two
      counters of `ChildStats` and the role chosen at login. */
  datatype AppState = AppState(tasks: seq<Task>, wishes: seq<Wish>, currentPoints: Int32,
                               totalPointsEarned: Int32, role: UserRole)

  /** The id given to the n-th task, `"T" + n`. */
  function TaskId(n: nat): string
  {
    "T" + NatToString(n)
  }

  /** The id given to the n-th wish, `"W" + n`. */
  function WishId(n: nat): string
  {
    "W" + NatToString(n)
  }

  function AddedByName(role: UserRole): string
  {
    if role == UserRole.Parent then "Parent" else "Teacher"
  }

  /** `login`: only the role changes. */
  function LoginStep(s: AppState, role: UserRole): (r: AppState)
    ensures r.role == role && r.(role := s.role) == s
  {
    s.(role := role)
  }

  /** `showAddTaskDialog` confirmed with a title, a description and points:
      a child is refused; otherwise exactly one pending, unrated task is
      appended, numbered after the tasks already there, and marked as added
      by the parent or, for any other role, the teacher. */
  function AddTaskStep(s: AppState, title: string, description: string, points: Int32): (r: AppState)
    ensures s.role == UserRole.Child ==> r == s
    ensures s.role != UserRole.Child ==>
              && |r.tasks| == |s.tasks| + 1
              && r.tasks[..|s.tasks|] == s.tasks
              && r.tasks[|s.tasks|] == Task(TaskId(|s.tasks| + 1), title, description, points,
                                            TaskStatus.Pending, 0, AddedByName(s.role))
              && r.(tasks := s.tasks) == s
  {
    if s.role == UserRole.Child then s
    else
      var t := Task(TaskId(|s.tasks| + 1), title, description, points, TaskStatus.Pending, 0,
                    AddedByName(s.role));
      s.(tasks := s.tasks + [t])
  }

  /** `markTaskCompleted` on the selected id: only a child may; the first
      task with that id that is still pending becomes completed, and nothing
      else changes. */
  function MarkCompletedStep(s: AppState, id: string): (r: AppState)
    ensures r.(tasks := s.tasks) == s && |r.tasks| == |s.tasks|
    ensures r != s <==> s.role == UserRole.Child && FirstPendingTask(s.tasks, id).Some?
    ensures forall j :: 0 <= j < |s.tasks| && r.tasks[j] != s.tasks[j] ==>
              && FirstPendingTask(s.tasks, id) == Some(j)
              && r.tasks[j] == s.tasks[j].(status := TaskStatus.Completed)
  {
    if s.role != UserRole.Child then s
    else
      match FirstPendingTask(s.tasks, id)
      case None => s
      case Some(i) => s.(tasks := s.tasks[i := s.tasks[i].(status := TaskStatus.Completed)])
  }

  /** Whether `showRateTaskDialog` accepts: not a child, the last task with the
      id is completed, and the rating is one to five stars. */
  predicate RateAccepted(s: AppState, id: string, rating: Int32)
  {
    && s.role != UserRole.Child
    && LastTaskWithId(s.tasks, id).Some?
    && s.tasks[LastTaskWithId(s.tasks, id).value].status == TaskStatus.Completed
    && 1 <= rating <= 5
  }

  /** `showRateTaskDialog` on the selected id with the typed rating: when
      accepted, the task becomes approved with that rating and its points are
      added, with `int` wrap-around, to both counters; otherwise nothing changes. */
  function RateTaskStep(s: AppState, id: string, rating: Int32): (r: AppState)
    ensures r.wishes == s.wishes && r.role == s.role && |r.tasks| == |s.tasks|
    ensures r != s <==> RateAccepted(s, id, rating)
    ensures !RateAccepted(s, id, rating) ==> r == s
    ensures RateAccepted(s, id, rating) ==>
              var i := LastTaskWithId(s.tasks, id).value;
              && r.tasks == s.tasks[i := s.tasks[i].(status := TaskStatus.Approved, rating := rating)]
              && r.currentPoints == Wrap32(s.currentPoints + s.tasks[i].points)
              && r.totalPointsEarned == Wrap32(s.totalPointsEarned + s.tasks[i].points)
  {
    if !RateAccepted(s, id, rating) then s
    else
      var i := LastTaskWithId(s.tasks, id).value;
      var t := s.tasks[i];
      AppState(s.tasks[i := t.(status := TaskStatus.Approved, rating := rating)], s.wishes,
               Wrap32(s.currentPoints + t.points), Wrap32(s.totalPointsEarned + t.points), s.role)
  }

  /** `showAddWishDialog` confirmed with a name and a cost: only a child may;
      exactly one requested wish is appended, numbered after the wishes already
      there, and its minimum level is the child's current level. */
  function AddWishStep(s: AppState, name: string, cost: Int32): (r: AppState)
    ensures s.role != UserRole.Child ==> r == s
    ensures s.role == UserRole.Child ==>
              && |r.wishes| == |s.wishes| + 1
              && r.wishes[..|s.wishes|] == s.wishes
              && r.wishes[|s.wishes|] == Wish(WishId(|s.wishes| + 1), name, cost,
                                              Level(s.totalPointsEarned), WishStatus.Requested)
              && r.(wishes := s.wishes) == s
  {
    if s.role != UserRole.Child then s
    else
      var w := Wish(WishId(|s.wishes| + 1), name, cost, Level(s.totalPointsEarned), WishStatus.Requested);
      s.(wishes := s.wishes + [w])
  }

  /** `approveWish` on the selected id: only a parent may; the first wish with
      the id that is still requested becomes approved, and nothing else changes. */
  function ApproveWishStep(s: AppState, id: string): (r: AppState)
    ensures r.(wishes := s.wishes) == s && |r.wishes| == |s.wishes|
    ensures r != s <==> s.role == UserRole.Parent && FirstRequestedWish(s.wishes, id).Some?
    ensures forall j :: 0 <= j < |s.wishes| && r.wishes[j] != s.wishes[j] ==>
              && FirstRequestedWish(s.wishes, id) == Some(j)
              && r.wishes[j] == s.wishes[j].(status := WishStatus.Approved)
  {
    if s.role != UserRole.Parent then s
    else
      match FirstRequestedWish(s.wishes, id)
      case None => s
      case Some(i) => s.(wishes := s.wishes[i := s.wishes[i].(status := WishStatus.Approved)])
  }

  /** Whether `redeemWish` accepts: a child, the first wish with the id is
      approved, and the child holds at least its cost. */
  predicate RedeemAccepted(s: AppState, id: string)
  {
    && s.role == UserRole.Child
    && FirstWishWithId(s.wishes, id).Some?
    && s.wishes[FirstWishWithId(s.wishes, id).value].status == WishStatus.Approved
    && s.currentPoints >= s.wishes[FirstWishWithId(s.wishes, id).value].cost
  }

  /** `redeemWish` on the selected id: when accepted, the wish becomes
      redeemed and its cost is taken, with `int` wrap-around, from the
      current points; the points earned stay; otherwise nothing changes. */
  function RedeemWishStep(s: AppState, id: string): (r: AppState)
    ensures r.tasks == s.tasks && r.totalPointsEarned == s.totalPointsEarned && r.role == s.role
    ensures |r.wishes| == |s.wishes|
    ensures r != s <==> RedeemAccepted(s, id)
    ensures RedeemAccepted(s, id) ==>
              var i := FirstWishWithId(s.wishes, id).value;
              && r.wishes == s.wishes[i := s.wishes[i].(status := WishStatus.Redeemed)]
              && r.currentPoints == Wrap32(s.currentPoints - s.wishes[i].cost)
  {
    if !RedeemAccepted(s, id) then s
    else
      var i := FirstWishWithId(s.wishes, id).value;
      var w := s.wishes[i];
      s.(wishes := s.wishes[i := w.(status := WishStatus.Redeemed)],
         currentPoints := Wrap32(s.currentPoints - w.cost))
  }

  /** With a non-negative cost, redeeming cannot wrap: the current points
      drop by exactly the cost and stay non-negative. */
  lemma RedeemStaysNonNegative(s: AppState, id: string)
    requires s.currentPoints >= 0
    requires forall j :: 0 <= j < |s.wishes| ==> s.wishes[j].cost >= 0
    ensures 0 <= RedeemWishStep(s, id).currentPoints <= s.currentPoints
    ensures RedeemAccepted(s, id) ==>
              RedeemWishStep(s, id).currentPoints
                == s.currentPoints - s.wishes[FirstWishWithId(s.wishes, id).value].cost
  {
  }

  // ---------------------------------------------------------------------
  // Any sequence of handler calls
  // ---------------------------------------------------------------------

  /** One user action on the dashboard, with what was typed or selected. */
  datatype Action =
    | Login(role: UserRole)
    | AddTask(title: string, description: string, points: Int32)
    | MarkCompleted(taskId: string)
    | RateTask(rateId: string, rating: Int32)
    | AddWish(name: string, cost: Int32)
    | ApproveWish(approveId: string)
    | RedeemWish(redeemId: string)

  function Apply(s: AppState, a: Action): AppState
  {
    match a
    case Login(role) => LoginStep(s, role)
    case AddTask(title, description, points) => AddTaskStep(s, title, description, points)
    case MarkCompleted(id) => MarkCompletedStep(s, id)
    case RateTask(id, rating) => RateTaskStep(s, id, rating)
    case AddWish(name, cost) => AddWishStep(s, name, cost)
    case ApproveWish(id) => ApproveWishStep(s, id)
    case RedeemWish(id) => RedeemWishStep(s, id)
  }

  function ApplyAll(s: AppState, acts: seq<Action>): AppState
    decreases |acts|
  {
    if acts == [] then s else ApplyAll(Apply(s, acts[0]), acts[1..])
  }

  function TaskRank(st: TaskStatus): nat
  {
    match st
    case Pending => 0
    case Completed => 1
    case Approved => 2
  }

  function WishRank(st: WishStatus): nat
  {
    match st
    case Requested => 0
    case Approved => 1
    case Redeemed => 2
  }

  /** A task keeps what it was created with, and its status never goes back. */
  predicate TaskAdvanced(before: Task, after: Task)
  {
    && after.(status := before.status, rating := before.rating) == before
    && TaskRank(before.status) <= TaskRank(after.status)
  }

  /** A wish keeps what it was created with, and its status never goes back. */
  predicate WishAdvanced(before: Wish, after: Wish)
  {
    && after.(status := before.status) == before
    && WishRank(before.status) <= WishRank(after.status)
  }

  /** The lists only grow, and each entry already there only advances. */
  predicate Advances(s: AppState, r: AppState)
  {
    && |s.tasks| <= |r.tasks|
    && (forall i :: 0 <= i < |s.tasks| ==> TaskAdvanced(s.tasks[i], r.tasks[i]))
    && |s.wishes| <= |r.wishes|
    && (forall i :: 0 <= i < |s.wishes| ==> WishAdvanced(s.wishes[i], r.wishes[i]))
  }

  lemma AdvancesTrans(s: AppState, m: AppState, r: AppState)
    requires Advances(s, m) && Advances(m, r)
    ensures Advances(s, r)
  {
  }

  /** No handler moves a task or a wish back in its life cycle, removes one,
      or edits anything but its status and, for a task, its rating. */
  lemma ApplyAdvances(s: AppState, a: Action)
    ensures Advances(s, Apply(s, a))
  {
    var r := Apply(s, a);
    match a
    case MarkCompleted(id) =>
      forall i | 0 <= i < |s.tasks|
        ensures TaskAdvanced(s.tasks[i], r.tasks[i])
      {
        if r.tasks[i] != s.tasks[i] {
          assert PendingWithId(s.tasks[i], id);
        }
      }
    case ApproveWish(id) =>
      forall i | 0 <= i < |s.wishes|
        ensures WishAdvanced(s.wishes[i], r.wishes[i])
      {
        if r.wishes[i] != s.wishes[i] {
          assert RequestedWithId(s.wishes[i], id);
        }
      }
    case _ =>
  }

  lemma {:induction false} ApplyAllAdvances(s: AppState, acts: seq<Action>)
    ensures Advances(s, ApplyAll(s, acts))
    decreases |acts|
  {
    if acts != [] {
      ApplyAdvances(s, acts[0]);
      ApplyAllAdvances(Apply(s, acts[0]), acts[1..]);
      AdvancesTrans(s, Apply(s, acts[0]), ApplyAll(s, acts));
    }
  }

  // ---------------------------------------------------------------------
  // Invariants of the ledger
  // ---------------------------------------------------------------------

  /** A task carries a rating of one to five stars once approved and none before. */
  predicate RatingsConsistent(ts: seq<Task>)
  {
    forall i :: 0 <= i < |ts| ==>
      if ts[i].status == TaskStatus.Approved then 1 <= ts[i].rating <= 5 else ts[i].rating == 0
  }

  lemma ApplyKeepsRatings(s: AppState, a: Action)
    requires RatingsConsistent(s.tasks)
    ensures RatingsConsistent(Apply(s, a).tasks)
  {
    var r := Apply(s, a);
    match a
    case MarkCompleted(id) =>
      forall i | 0 <= i < |r.tasks|
        ensures if r.tasks[i].status == TaskStatus.Approved then 1 <= r.tasks[i].rating <= 5
                else r.tasks[i].rating == 0
      {
        if r.tasks[i] != s.tasks[i] {
          assert PendingWithId(s.tasks[i], id);
        }
      }
    case _ =>
  }

  /** The n-th task is `"T" + n` and the n-th wish `"W" + n`, as the add
      handlers number them. */
  predicate IdsInOrder(s: AppState)
  {
    && (forall i :: 0 <= i < |s.tasks| ==> s.tasks[i].id == TaskId(i + 1))
    && (forall i :: 0 <= i < |s.wishes| ==> s.wishes[i].id == WishId(i + 1))
  }

  /** The n-th task id determines n. */
  lemma TaskIdInjective(m: nat, n: nat)
    requires TaskId(m) == TaskId(n)
    ensures m == n
  {
    assert TaskId(m)[1..] == NatToString(m);
    assert TaskId(n)[1..] == NatToString(n);
    NatToStringInjective(m, n);
  }

  /** The n-th wish id determines n. */
  lemma WishIdInjective(m: nat, n: nat)
    requires WishId(m) == WishId(n)
    ensures m == n
  {
    assert WishId(m)[1..] == NatToString(m);
    assert WishId(n)[1..] == NatToString(n);
    NatToStringInjective(m, n);
  }

  lemma ApplyKeepsIdsInOrder(s: AppState, a: Action)
    requires IdsInOrder(s)
    ensures IdsInOrder(Apply(s, a))
  {
  }

  /** While ids are in order, the task the rating dialog picks by id is the
      selected row itself. */
  lemma RatedTaskIsSelectedRow(s: AppState, row: nat)
    requires IdsInOrder(s) && row < |s.tasks|
    ensures LastTaskWithId(s.tasks, s.tasks[row].id) == Some(row)
  {
    var r := LastTaskWithId(s.tasks, s.tasks[row].id);
    if r.Some? && r.value != row {
      TaskIdInjective(r.value + 1, row + 1);
    }
  }

  /** While ids are in order, the wish `redeemWish` picks by id is the
      selected row itself. */
  lemma RedeemedWishIsSelectedRow(s: AppState, row: nat)
    requires IdsInOrder(s) && row < |s.wishes|
    ensures FirstWishWithId(s.wishes, s.wishes[row].id) == Some(row)
  {
    var r := FirstWishWithId(s.wishes, s.wishes[row].id);
    if r.Some? && r.value != row {
      WishIdInjective(r.value + 1, row + 1);
    }
  }

  /** The points a task has brought in: its points once approved, else none. */
  function Earned(t: Task): int
  {
    if t.status == TaskStatus.Approved then t.points else 0
  }

  /** The points a wish has taken: its cost once redeemed, else none. */
  function Spent(w: Wish): int
  {
    if w.status == WishStatus.Redeemed then w.cost else 0
  }

  function ApprovedPoints(ts: seq<Task>): int
  {
    if ts == [] then 0 else Earned(ts[0]) + ApprovedPoints(ts[1..])
  }

  function RedeemedCost(ws: seq<Wish>): int
  {
    if ws == [] then 0 else Spent(ws[0]) + RedeemedCost(ws[1..])
  }

  lemma {:induction false} ApprovedPointsAppend(ts: seq<Task>, t: Task)
    ensures ApprovedPoints(ts + [t]) == ApprovedPoints(ts) + Earned(t)
  {
    if ts == [] {
      assert ts + [t] == [t];
    } else {
      ApprovedPointsAppend(ts[1..], t);
      assert (ts + [t])[1..] == ts[1..] + [t];
    }
  }

  lemma {:induction false} ApprovedPointsUpdate(ts: seq<Task>, i: nat, t: Task)
    requires i < |ts|
    ensures ApprovedPoints(ts[i := t]) == ApprovedPoints(ts) - Earned(ts[i]) + Earned(t)
  {
    if i == 0 {
      assert ts[i := t][1..] == ts[1..];
    } else {
      ApprovedPointsUpdate(ts[1..], i - 1, t);
      assert ts[i := t][1..] == ts[1..][i - 1 := t];
    }
  }

  lemma {:induction false} RedeemedCostAppend(ws: seq<Wish>, w: Wish)
    ensures RedeemedCost(ws + [w]) == RedeemedCost(ws) + Spent(w)
  {
    if ws == [] {
      assert ws + [w] == [w];
    } else {
      RedeemedCostAppend(ws[1..], w);
      assert (ws + [w])[1..] == ws[1..] + [w];
    }
  }

  lemma {:induction false} RedeemedCostUpdate(ws: seq<Wish>, i: nat, w: Wish)
    requires i < |ws|
    ensures RedeemedCost(ws[i := w]) == RedeemedCost(ws) - Spent(ws[i]) + Spent(w)
  {
    if i == 0 {
      assert ws[i := w][1..] == ws[1..];
    } else {
      RedeemedCostUpdate(ws[1..], i - 1, w);
      assert ws[i := w][1..] == ws[1..][i - 1 := w];
    }
  }

  const Modulus: int := 0x1_0000_0000

  /** Two numbers that agree as Java `int`s. */
  predicate SameInt32(a: int, b: int)
  {
    (a - b) % Modulus == 0
  }

  lemma SameInt32Trans(a: int, b: int, c: int)
    requires SameInt32(a, b) && SameInt32(b, c)
    ensures SameInt32(a, c)
  {
    var p, q := (a - b) / Modulus, (b - c) / Modulus;
    assert a - b == Modulus * p;
    assert b - c == Modulus * q;
    assert a - c == Modulus * (p + q);
  }

  /** The counters of `ChildStats` as the lists account for them: the points
      earned are the points of the approved tasks, and the current points are
      those less the costs of the redeemed wishes, each as a Java `int`. */
  predicate Ledger(s: AppState)
  {
    && SameInt32(s.totalPointsEarned, ApprovedPoints(s.tasks))
    && SameInt32(s.currentPoints, ApprovedPoints(s.tasks) - RedeemedCost(s.wishes))
  }

  lemma LedgerAfterRate(s: AppState, id: string, rating: Int32)
    requires Ledger(s)
    ensures Ledger(RateTaskStep(s, id, rating))
  {
    if RateAccepted(s, id, rating) {
      var r := RateTaskStep(s, id, rating);
      var i := LastTaskWithId(s.tasks, id).value;
      var p := s.tasks[i].points;
      ApprovedPointsUpdate(s.tasks, i, r.tasks[i]);
      assert ApprovedPoints(r.tasks) == ApprovedPoints(s.tasks) + p;
      SameInt32Trans(r.totalPointsEarned, s.totalPointsEarned + p, ApprovedPoints(s.tasks) + p);
      SameInt32Trans(r.currentPoints, s.currentPoints + p,
                     ApprovedPoints(s.tasks) - RedeemedCost(s.wishes) + p);
    }
  }

  lemma LedgerAfterRedeem(s: AppState, id: string)
    requires Ledger(s)
    ensures Ledger(RedeemWishStep(s, id))
  {
    if RedeemAccepted(s, id) {
      var r := RedeemWishStep(s, id);
      var i := FirstWishWithId(s.wishes, id).value;
      var c := s.wishes[i].cost;
      RedeemedCostUpdate(s.wishes, i, r.wishes[i]);
      assert RedeemedCost(r.wishes) == RedeemedCost(s.wishes) + c;
      SameInt32Trans(r.currentPoints, s.currentPoints - c,
                     ApprovedPoints(s.tasks) - RedeemedCost(s.wishes) - c);
    }
  }

  lemma LedgerAfterMarkCompleted(s: AppState, id: string)
    requires Ledger(s)
    ensures Ledger(MarkCompletedStep(s, id))
  {
    var r := MarkCompletedStep(s, id);
    var found := FirstPendingTask(s.tasks, id);
    if s.role == UserRole.Child && found.Some? {
      var i := found.value;
      ApprovedPointsUpdate(s.tasks, i, r.tasks[i]);
      assert r.tasks == s.tasks[i := r.tasks[i]];
    }
  }

  lemma LedgerAfterApproveWish(s: AppState, id: string)
    requires Ledger(s)
    ensures Ledger(ApproveWishStep(s, id))
  {
    var r := ApproveWishStep(s, id);
    var found := FirstRequestedWish(s.wishes, id);
    if s.role == UserRole.Parent && found.Some? {
      var i := found.value;
      RedeemedCostUpdate(s.wishes, i, r.wishes[i]);
      assert r.wishes == s.wishes[i := r.wishes[i]];
    }
  }

  /** Every handler keeps the counters in step with the lists. */
  lemma ApplyKeepsLedger(s: AppState, a: Action)
    requires Ledger(s)
    ensures Ledger(Apply(s, a))
  {
    var r := Apply(s, a);
    match a
    case Login(_) =>
    case AddTask(title, description, points) =>
      if s.role != UserRole.Child {
        ApprovedPointsAppend(s.tasks, r.tasks[|s.tasks|]);
        assert r.tasks == s.tasks + [r.tasks[|s.tasks|]];
      }
    case MarkCompleted(id) => LedgerAfterMarkCompleted(s, id);
    case RateTask(id, rating) => LedgerAfterRate(s, id, rating);
    case AddWish(name, cost) =>
      if s.role == UserRole.Child {
        RedeemedCostAppend(s.wishes, r.wishes[|s.wishes|]);
        assert r.wishes == s.wishes + [r.wishes[|s.wishes|]];
      }
    case ApproveWish(id) => LedgerAfterApproveWish(s, id);
    case RedeemWish(id) => LedgerAfterRedeem(s, id);
  }

  /** What every handler keeps true. */
  predicate Consistent(s: AppState)
  {
    RatingsConsistent(s.tasks) && IdsInOrder(s) && Ledger(s)
  }

  /** A first start: no saved tasks or wishes and both counters at zero. */
  function FreshState(role: UserRole): (s: AppState)
    ensures Consistent(s)
  {
    AppState([], [], 0, 0, role)
  }

  /** Whatever the user does, the handlers keep the state consistent. */
  lemma {:induction false} ApplyAllConsistent(s: AppState, acts: seq<Action>)
    requires Consistent(s)
    ensures Consistent(ApplyAll(s, acts))
    decreases |acts|
  {
    if acts != [] {
      ApplyKeepsRatings(s, acts[0]);
      ApplyKeepsIdsInOrder(s, acts[0]);
      ApplyKeepsLedger(s, acts[0]);
      ApplyAllConsistent(Apply(s, acts[0]), acts[1..]);
    }
  }
}
