/** The KidTask dashboard: the task list, the wish list and the child's
    counters, which the handlers behind the dashboard's buttons update in
    place. Each handler is proved to make the state change its
    `KidTaskModel` step function describes. */
module KidTask {
  import opened JavaLang
  import opened KidTaskModel

  class KidTaskApp {
    var tasks: seq<Task>
    var wishes: seq<Wish>
    /** `stats.currentPoints` */
    var currentPoints: Int32
    /** `stats.totalPointsEarned` */
    var totalPointsEarned: Int32
    /** `currentRole`, set by the login screen */
    var role: UserRole

    function State(): AppState
      reads this
    {
      AppState(tasks, wishes, currentPoints, totalPointsEarned, role)
    }

    /** The application after loading the saved lists and counters and
        logging in with a role. */
    constructor(savedTasks: seq<Task>, savedWishes: seq<Wish>, savedCurrent: Int32, savedTotal: Int32,
                loginRole: UserRole)
      ensures State() == AppState(savedTasks, savedWishes, savedCurrent, savedTotal, loginRole)
    {
      tasks := savedTasks;
      wishes := savedWishes;
      currentPoints := savedCurrent;
      totalPointsEarned := savedTotal;
      role := loginRole;
    }

    method Login(newRole: UserRole)
      modifies this
      ensures State() == LoginStep(old(State()), newRole)
    {
      role := newRole;
    }

    /** What the dashboard shows after a refresh: the level, the value of the
        progress bar and the rows of the wish table. */
    method RefreshDashboard() returns (level: Int32, progress: int, wishRows: seq<Wish>)
      ensures level == Level(totalPointsEarned) && progress == Progress(totalPointsEarned)
      ensures wishRows == VisibleWishes(wishes, role, level)
    {
      level := 1 + JavaDiv(totalPointsEarned, PointsPerLevel);
      progress := JavaRem(totalPointsEarned, PointsPerLevel);
      wishRows := [];
      var i := 0;
      while i < |wishes|
        invariant 0 <= i <= |wishes|
        invariant wishRows == VisibleWishes(wishes[..i], role, level)
      {
        var w := wishes[i];
        VisibleWishesAppend(wishes[..i], [w], role, level);
        assert wishes[..i + 1] == wishes[..i] + [w];
        if !(role == UserRole.Child && w.minLevel > level) {
          wishRows := wishRows + [w];
        }
        i := i + 1;
      }
      assert wishes[..|wishes|] == wishes;
    }

    /** `showAddTaskDialog`, confirmed with the typed title, description and points. */
    method ShowAddTaskDialog(title: string, description: string, points: Int32)
      modifies this
      ensures State() == AddTaskStep(old(State()), title, description, points)
    {
      if role == UserRole.Child {
        return;
      }
      var id := "T" + NatToString(|tasks| + 1);
      var addedBy := if role == UserRole.Parent then "Parent" else "Teacher";
      tasks := tasks + [Task(id, title, description, points, TaskStatus.Pending, 0, addedBy)];
    }

    /** `markTaskCompleted` on the id of the selected row. */
    method MarkTaskCompleted(id: string)
      modifies this
      ensures State() == MarkCompletedStep(old(State()), id)
    {
      if role != UserRole.Child {
        return;
      }
      var i := 0;
      while i < |tasks|
        invariant 0 <= i <= |tasks|
        invariant State() == old(State())
        invariant forall j :: 0 <= j < i ==> !PendingWithId(tasks[j], id)
      {
        if tasks[i].id == id && tasks[i].status == TaskStatus.Pending {
          tasks := tasks[i := tasks[i].(status := TaskStatus.Completed)];
          return;
        }
        i := i + 1;
      }
    }

    /** `showRateTaskDialog` on the id of the selected row, with the typed rating. */
    method ShowRateTaskDialog(id: string, rating: Int32)
      modifies this
      ensures State() == RateTaskStep(old(State()), id, rating)
    {
      if role == UserRole.Child {
        return;
      }
      var selected: Option<nat> := None;
      var i := 0;
      while i < |tasks|
        invariant 0 <= i <= |tasks|
        invariant selected == LastTaskWithId(tasks[..i], id)
      {
        assert tasks[..i + 1][..i] == tasks[..i];
        if tasks[i].id == id {
          selected := Some(i);
        }
        i := i + 1;
      }
      assert tasks[..|tasks|] == tasks;
      if selected.None? || tasks[selected.value].status != TaskStatus.Completed {
        return;
      }
      if rating < 1 || rating > 5 {
        return;
      }
      var k := selected.value;
      var t := tasks[k];
      tasks := tasks[k := t.(status := TaskStatus.Approved, rating := rating)];
      currentPoints := Wrap32(currentPoints + t.points);
      totalPointsEarned := Wrap32(totalPointsEarned + t.points);
    }

    /** `showAddWishDialog`, confirmed with the typed name and cost. */
    method ShowAddWishDialog(name: string, cost: Int32)
      modifies this
      ensures State() == AddWishStep(old(State()), name, cost)
    {
      if role != UserRole.Child {
        return;
      }
      var id := "W" + NatToString(|wishes| + 1);
      wishes := wishes + [Wish(id, name, cost, Level(totalPointsEarned), WishStatus.Requested)];
    }

    /** `approveWish` on the id of the selected row. */
    method ApproveWish(id: string)
      modifies this
      ensures State() == ApproveWishStep(old(State()), id)
    {
      if role != UserRole.Parent {
        return;
      }
      var i := 0;
      while i < |wishes|
        invariant 0 <= i <= |wishes|
        invariant State() == old(State())
        invariant forall j :: 0 <= j < i ==> !RequestedWithId(wishes[j], id)
      {
        if wishes[i].id == id && wishes[i].status == WishStatus.Requested {
          wishes := wishes[i := wishes[i].(status := WishStatus.Approved)];
          return;
        }
        i := i + 1;
      }
    }

    /** `redeemWish` on the id of the selected row. */
    method RedeemWish(id: string)
      modifies this
      ensures State() == RedeemWishStep(old(State()), id)
    {
      if role != UserRole.Child {
        return;
      }
      var i := 0;
      while i < |wishes|
        invariant 0 <= i <= |wishes|
        invariant State() == old(State())
        invariant forall j :: 0 <= j < i ==> wishes[j].id != id
      {
        var w := wishes[i];
        if w.id == id {
          if w.status != WishStatus.Approved {
            return;
          }
          if currentPoints >= w.cost {
            wishes := wishes[i := w.(status := WishStatus.Redeemed)];
            currentPoints := Wrap32(currentPoints - w.cost);
          }
          return;
        }
        i := i + 1;
      }
    }
  }
}
