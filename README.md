# BeePlan timetable search and KidTask reward ledger, in Dafny

This project models two programs of the SENG383 repository and proves
properties of them.

**BeePlan** (`src/beeplan.py`) builds a weekly course timetable: 5 days of 8
teaching hours, with a list of rooms. The model covers the following.

- The records `Course` and `Room` and the calendar constants. Friday is day
  index 4, and its hour indices 4 and 5 are blocked.
- The order `run` sorts the courses into: Labs first, longer courses first,
  and stable otherwise.
- The validator `is_valid`. A slot is refused when:
  - the room is taken at that hour;
  - it falls in the Friday block;
  - the instructor or the year is busy at that hour;
  - the room is too small;
  - the room type does not suit the course: a Lab course needs a Lab room,
    and a Theory course must not get one;
  - for a Theory course, its instructor already has four or more hours that
    day.
- The backtracking search `solve`. It tries every day, start hour and room in
  order. It commits a block that passes the validator at every offset,
  recurses, and on failure rolls the block back.

The worker is a class. Its fields are the course list, the grid
`schedule_grid`, the two `defaultdict(list)` schedules (per instructor, per
year) and each course's `assigned_slots`.

The search is proved to find a timetable exactly when one exists, in the
sense of the search itself. A timetable here is a block for each course, in
sorted order, such that every block passes the validator against the blocks
before it.

- When `solve` succeeds, the occupancy is exactly that of the placed blocks.
- When it fails, the grid and both schedules are restored exactly, and the
  courses from the failing one on keep or lose their slots.
- Separate lemmas read off what a full timetable guarantees:
  - no room, instructor or year is double-booked;
  - nothing lands in the Friday block;
  - every course of at least one hour gets one contiguous block of `hours`
    hours on one day, in one room that is large enough and of the right type.

**KidTask** (`src/kidtask.py`, Java source despite the extension) is a
task-and-reward ledger. A parent or teacher adds tasks. The child marks a
task completed. A parent or teacher approves it with a rating of 1 to 5
stars, which credits its points. The child asks for wishes. A parent
approves a wish, and the child redeems it by paying its cost in points. The
level is `1 + totalPointsEarned / 50`, and a child does not see wishes above
their level.

The model covers the following.

- The records and their CSV line format.
- Java's 32-bit `int`:
  - arithmetic wraps around;
  - `/` and `%` truncate toward zero;
  - `Integer.toString` and `Integer.parseInt`;
  - `String.split(",")`, which drops trailing empty strings.
- Each dashboard handler, as a method of a `KidTaskApp` class whose fields
  are the task list, the wish list, the two counters and the role. Each
  method is proved to make the change that a pure step function describes.
- Properties of those step functions:
  - statuses only move forward;
  - ratings are consistent with status;
  - ids are numbered in order, so a lookup by id finds the selected row;
  - the counters stay in step with the lists (modulo 2^32). The points
    earned equal the points of the approved tasks, and the current points
    equal those minus the costs of the redeemed wishes.

Four features of the BeePlan code are kept as written:

- The search has no timeout or abort. `solve(0)` either finds a placement
  or tries every candidate.
- `hours` is never checked to be at least 1. `range(hours)` gives an empty
  block for 0 or less, and the model keeps that.
- The Theory cap counts the instructor's hours already committed that day.
  It is checked against the occupancy from before the block, at each offset
  of the block. It therefore never counts the block's own hours.
- `start_generation` builds a new worker over the same `Course` objects on
  every click, and `__init__` does not reset `assigned_slots`. From the
  second generation on, the courses still carry the slots of the previous
  run. The model's worker is built over courses paired with the slots they
  hold, and the sort moves each slot list with its course.

## Model

| member | source | states |
|---|---|---|
| Timetable.Store | src/beeplan.py:52-53 | Writing one key of a `defaultdict(list)` changes what that key reads and no other, and keeps the map free of keys with empty lists. |
| Timetable.LookupExtensional | src/beeplan.py:52-53 | Two such schedules that read alike for every key are the same map, so a schedule put back key by key is the original. |
| Timetable.CountOnDay | src/beeplan.py:86-92 | The `daily_hours` count of `is_valid`: the number of the instructor's (day, hour) pairs whose day is the given one, at most the list's length. |
| Timetable.Admissible | src/beeplan.py:63-96 | The conjunction of the conditions under which `is_valid` returns True: slot not in the grid, not Friday hour 4 or 5, the pair in neither the instructor's nor the year's list, capacity at least the headcount, a Lab course in a Lab room and a Theory course not in one, and for Theory a `daily_hours` count below 4. A Lab room never goes to a Theory course. |
| CourseOrder.SortForSearch | src/beeplan.py:56 | The course order of `courses.sort(...)`: each course inserted, in list order, after every course whose key is at least its own; the result has as many courses as the input. |
| CourseOrder.SortForSearchOrdered | src/beeplan.py:56 | After the sort, every Lab course precedes every non-Lab course, and among equal Lab-ness longer courses come first. |
| CourseOrder.SortForSearchPermutes | src/beeplan.py:56 | The sort is a permutation of the course list. |
| CourseOrder.SortForSearchStable | src/beeplan.py:56 | Courses with the same key keep their relative order, as Python's stable sort with `reverse=True` does. |
| CourseOrder.InsertOrdered | src/beeplan.py:56 | Inserting a course into a key-descending list keeps it key-descending. |
| CourseOrder.Zip | src/beeplan.py:30 | Pairing each course with its `assigned_slots` is undone by taking the courses and the slot lists apart again. |
| CourseOrder.SortEntries | src/beeplan.py:56 | The same sort applied to courses that carry their `assigned_slots`, comparing only the course's key; the result has as many entries as the input. |
| CourseOrder.SortEntriesCourses | src/beeplan.py:56 | Sorting courses that carry their slots puts the courses in exactly the order of the course sort. |
| CourseOrder.SortEntriesPermutes | src/beeplan.py:56 | The sort moves every slot list together with its course: the sorted pairs are a permutation of the original pairs. |
| Scheduler.SchedulerWorker.constructor | src/beeplan.py:46-53 | A new worker has an empty grid and empty schedules, over the given courses, each keeping the slots it already holds. |
| Scheduler.SchedulerWorker.IsValid | src/beeplan.py:63-96 | `is_valid` is True if and only if every condition holds: slot free in the grid, not in the Friday block, instructor and year free at that hour, capacity at least the headcount, room type suits the course, and for Theory fewer than 4 instructor hours that day. It changes nothing, up to the normal form of the two schedules (see `Timetable.Store` under Left out). |
| Scheduler.SchedulerWorker.CheckBlock | src/beeplan.py:110-117 | The block is valid if and only if every offset passes `is_valid` against the same occupancy; then `temp_assignments` is the block's (day, hour) list. |
| Scheduler.SchedulerWorker.CommitBlock | src/beeplan.py:119-125 | The commit loop sets the course's slots to the block in the room, adds the block to the grid under this course, and appends it to exactly the course's instructor list and year list. |
| Scheduler.SchedulerWorker.CommitSlot | src/beeplan.py:120-125 | One pass of the commit loop adds exactly the next slot to the grid, the next pair to both lists and the next slot to `assigned_slots`. |
| Scheduler.SchedulerWorker.RollbackBlock | src/beeplan.py:130-134 | The rollback loop (delete from the grid, `list.remove` from both lists, clear the slots) restores the grid and both schedules exactly as before the commit. |
| Scheduler.SchedulerWorker.RollbackSlot | src/beeplan.py:131-133 | One pass of the rollback loop finds its grid entry and both pairs, and removes exactly the next slot of the block from the occupancy. |
| Scheduler.SchedulerWorker.CommitAdmissible | src/beeplan.py:119-125 | Committing a block that passed the validator turns the committed state of courses 0..k-1 into that of courses 0..k. |
| Scheduler.SchedulerWorker.TryBlock | src/beeplan.py:119-134 | Commit, recurse, and roll back on failure. Success yields a full placement that starts with the block; failure means no placement starts with the block, and restores the occupancy. |
| Scheduler.SchedulerWorker.Solve | src/beeplan.py:98-136 | `solve(k)` succeeds if and only if the committed prefix can be completed. On success every course is placed and the occupancy is that of the placement. On failure no completion exists, the grid and schedules are unchanged, and later courses keep or lose their slots. |
| Scheduler.SchedulerWorker.TryHours | src/beeplan.py:105-136 | The start-hour loop for one day: success completes the prefix `solve(k)` began with; failure means no completion places course k on that day, with the occupancy unchanged. |
| Scheduler.SchedulerWorker.TryRooms | src/beeplan.py:106-134 | The room loop for one (day, start hour): success completes the prefix; failure means no completion places course k at that start, with the occupancy unchanged. |
| Scheduler.SchedulerWorker.TryRoom | src/beeplan.py:107-134 | One room: the block is checked and, if it passes, committed, recursed on and rolled back on failure. Success completes the prefix; failure excludes this candidate and leaves the occupancy unchanged. |
| Scheduler.SchedulerWorker.Run | src/beeplan.py:55-58 | `run` sorts the courses, each with its slot list, and succeeds exactly when the sorted list has a placement. On failure all occupancy is empty, and every course keeps the slots it came with or has them cleared. |
| OccupancyFacts.RemoveFirst | src/beeplan.py:132-133 | `list.remove(x)`: the first occurrence of `x` is dropped, so the list is one shorter. Defined only when `x` is present (see Left out). |
| OccupancyFacts.RemoveFirstAppended | src/beeplan.py:132-133 | `list.remove` of a pair appended after pairs that differ from it removes exactly that pair. |
| OccupancyFacts.RemoveStep | src/beeplan.py:132-133 | `list.remove` on a `defaultdict(list)` entry that holds the pair after a base list without it leaves the base list and the rest, and no other key changes. |
| OccupancyFacts.RollbackStep | src/beeplan.py:130-133 | One rollback step finds the slot in the grid and its pair in both lists, and leaves the base occupancy plus the rest of the block. |
| OccupancyFacts.RollbackDone | src/beeplan.py:130-134 | After the last rollback step the occupancy equals the base occupancy. |
| OccupancyFacts.BlockHeld | src/beeplan.py:119-125 | A committed admissible block was fresh: its slots were free in the grid and its pairs free in both lists. |
| OccupancyFacts.CommitPreserves | src/beeplan.py:119-125 | Committing an admissible block of course k extends the committed state of k courses to k+1 courses. |
| OccupancyFacts.CommitExtends | src/beeplan.py:119-125 | The grid and lists induced by k+1 blocks are those of k blocks plus the new block. |
| OccupancyFacts.OccupancyDependsOnPrefix | src/beeplan.py:119-125 | The occupancy induced by the first k blocks depends only on those blocks. |
| OccupancyFacts.KeptOrClearedRollback | src/beeplan.py:134 | Clearing `assigned_slots` of course k after a failed branch keeps or clears every course from k on. |
| OccupancyFacts.CompletionOfPrefix | src/beeplan.py:127-128 | A success of the recursive call completes the caller's prefix. |
| OccupancyFacts.ExcludeInadmissible | src/beeplan.py:110-119 | A (day, hour, room) candidate that fails the validator starts no completion. |
| OccupancyFacts.ExcludeFailedBranch | src/beeplan.py:127-134 | A candidate whose recursive call failed starts no completion. |
| OccupancyFacts.Exhausted | src/beeplan.py:105-136 | Once every day, start hour and room has been excluded, the prefix has no completion, so `return False` is right. |
| TimetableSoundness.SlotOfPlaced | src/beeplan.py:63-96 | Every slot of a placed course lies in the week, avoids the Friday block, and was free for the room, the instructor and the year when the course was placed. |
| TimetableSoundness.NoRoomClash | src/beeplan.py:64-65 | In a full placement no (day, hour, room) holds two courses. |
| TimetableSoundness.NoInstructorClash | src/beeplan.py:70-72 | In a full placement no instructor has two courses at the same (day, hour). |
| TimetableSoundness.NoCohortClash | src/beeplan.py:74-76 | In a full placement no year has two courses at the same (day, hour). |
| TimetableSoundness.FridayBlockFree | src/beeplan.py:67-68 | In a full placement no slot is Friday hour 4 or 5, and all slots are in the 5x8 week. |
| TimetableSoundness.PlacedBlockShape | src/beeplan.py:105-125 | Each course of at least one hour gets `hours` consecutive hours of one day, with start + hours <= 8, in one room. That room seats its students and suits its type; for Theory the instructor had fewer than 4 hours that day before it. |
| JavaLang.Wrap32 | src/kidtask.py:458-459 | Java `int` arithmetic wraps: the result is in range, equals the exact value when that is in range, and is congruent to it mod 2^32. |
| JavaLang.JavaDiv | src/kidtask.py:78-80 | Java `a / b` for `b > 0` truncates toward zero: for `a >= 0`, `b*q` is the largest multiple of `b` at most `a`; for `a < 0`, the smallest multiple at least `a`. |
| JavaLang.JavaRem | src/kidtask.py:360 | Java `a % b` for `b > 0`: in `[0, b)` for `a >= 0` and in `(-b, 0]` for `a < 0`. |
| JavaLang.JavaDivRem | src/kidtask.py:78-80 | Java `/` and `%` by a positive divisor satisfy `a == b*(a/b) + a%b`, with the remainder taking the sign of `a`. |
| JavaLang.JavaDivMonotone | src/kidtask.py:78-80 | Java's truncating division by a positive divisor is monotone. |
| JavaLang.DigitsValueOfNatToString | src/kidtask.py:37-39 | The decimal digits printed for a natural number read back as that number. |
| JavaLang.NatToStringInjective | src/kidtask.py:400 | Different numbers print differently. |
| JavaLang.IntToString | src/kidtask.py:37-39 | `"" + n` for an `int`: a minus sign for negative values, then the decimal digits; never empty and never holding a comma. |
| JavaLang.ParseInt | src/kidtask.py:41-45 | `Integer.parseInt` succeeds only on a non-empty text; on an unsigned text it is all digits and reads as their value. |
| JavaLang.ParseIntToString | src/kidtask.py:37-45 | Parsing the printed form of an `int` gives the `int` back. |
| JavaLang.DropTrailingEmpty | src/kidtask.py:42 | The result is a prefix of the pieces; everything dropped is empty; the result does not end in an empty piece. |
| JavaLang.JavaSplit | src/kidtask.py:42 | `line.split(",")`: a line without a comma gives itself; otherwise the comma-separated pieces with trailing empty pieces removed. No piece holds a comma, and for a line with a comma the last piece, if any, is non-empty. |
| JavaLang.PiecesOfJoin | src/kidtask.py:37-45 | Splitting comma-free fields joined by commas at every comma gives the fields back. |
| JavaLang.SplitOfJoin | src/kidtask.py:37-45 | `split(",")` returns two or more comma-free fields joined by commas, provided the last field is not empty. |
| JavaLang.SplitOfJoinEmptyLast | src/kidtask.py:37-45 | With an empty last field, `split(",")` returns fewer pieces than there were fields. |
| JavaLang.JoinCommasSnoc | src/kidtask.py:37-39 | A comma join peels off its last field as well as its first. |
| KidTaskModel.TaskStatusName | src/kidtask.py:14 | Each task status prints as a non-empty name without a comma, which `valueOf` reads back. |
| KidTaskModel.TaskStatusOf | src/kidtask.py:14 | `TaskStatus.valueOf` succeeds exactly on the three constant names. |
| KidTaskModel.WishStatusName | src/kidtask.py:15 | Each wish status prints as a non-empty name without a comma, which `valueOf` reads back. |
| KidTaskModel.WishStatusOf | src/kidtask.py:15 | `WishStatus.valueOf` succeeds exactly on the three constant names. |
| KidTaskModel.TaskToCSV | src/kidtask.py:37-39 | `Task.toCSV` is the comma join of the seven fields: id, title, description, points, status name, rating, addedBy. |
| KidTaskModel.TaskFromCSV | src/kidtask.py:41-45 | `Task.fromCSV` is `None` (the Java code throws) exactly when `split` gives fewer than 7 pieces, or points, status or rating fails to parse; a task it returns has comma-free id, title, description and addedBy. |
| KidTaskModel.WishToCSV | src/kidtask.py:63-65 | `Wish.toCSV` is the comma join of the five fields: id, name, cost, minLevel, status name. |
| KidTaskModel.WishFromCSV | src/kidtask.py:67-71 | `Wish.fromCSV` is `None` (the Java code throws) exactly when `split` gives fewer than 5 pieces, or cost, minLevel or status fails to parse; a wish it returns has comma-free id and name. |
| KidTaskModel.JoinSeven | src/kidtask.py:37-39 | `Task.toCSV` is its seven fields joined by commas. |
| KidTaskModel.JoinFive | src/kidtask.py:63-65 | `Wish.toCSV` is its five fields joined by commas. |
| KidTaskModel.TaskCSVRoundTrip | src/kidtask.py:37-45 | `Task.fromCSV(t.toCSV())` is `t` when id, title, description and addedBy hold no comma and addedBy is non-empty. |
| KidTaskModel.TaskCSVEmptyAddedBy | src/kidtask.py:37-45 | With an empty addedBy, reading the saved line back throws, because split drops the last field. |
| KidTaskModel.WishCSVRoundTrip | src/kidtask.py:63-71 | `Wish.fromCSV(w.toCSV())` is `w` when id and name hold no comma. |
| KidTaskModel.Level | src/kidtask.py:78-80 | `getLevel()` is `1 + total / 50` with Java division: for a non-negative total, the level is the band of 50 points the total lies in (`50*(level-1) <= total < 50*level`); for a negative one, the band rounded toward zero. |
| KidTaskModel.LevelAtLeastOne | src/kidtask.py:78-80 | `getLevel()` is at least 1 if and only if `totalPointsEarned > -50`. |
| KidTaskModel.LevelMonotone | src/kidtask.py:78-80 | More points earned never give a lower level. |
| KidTaskModel.Progress | src/kidtask.py:361 | `totalPointsEarned % 50` is in [0, 50) for a non-negative total and in (-50, 0] otherwise, and `total == 50*(level-1) + progress`. |
| KidTaskModel.VisibleWishes | src/kidtask.py:371-375 | The wish rows of the dashboard: every wish in list order, skipping, for a child, those whose `minLevel` exceeds the level; never more rows than wishes. |
| KidTaskModel.VisibleWishesMembership | src/kidtask.py:372-374 | A wish is shown if and only if it is in the list and the viewer is not a child or its minimum level is at most the current level. |
| KidTaskModel.VisibleWishesAppend | src/kidtask.py:372-374 | The filter distributes over concatenation, so shown wishes keep their list order. |
| KidTaskModel.VisibleWishesAll | src/kidtask.py:372-374 | Parents and teachers see every wish. |
| KidTaskModel.FirstPendingTask | src/kidtask.py:421-427 | The search finds the first task with the id that is PENDING, or reports that none exists. |
| KidTaskModel.LastTaskWithId | src/kidtask.py:441-442 | The selection loop ends on the last task with the id, or finds none. |
| KidTaskModel.FirstRequestedWish | src/kidtask.py:507-514 | The search finds the first wish with the id that is REQUESTED, or reports that none exists. |
| KidTaskModel.FirstWishWithId | src/kidtask.py:527-544 | The search finds the first wish with the id, whatever its status. |
| KidTaskModel.LoginStep | src/kidtask.py:239-240 | Logging in changes only the role. |
| KidTaskModel.AddTaskStep | src/kidtask.py:378-403 | A child is refused with no change. Otherwise exactly one task is appended with id "T"+(n+1), status PENDING and rating 0, added by "Parent" for a parent and "Teacher" otherwise; nothing else changes. |
| KidTaskModel.MarkCompletedStep | src/kidtask.py:412-429 | Only for a child: the first PENDING task with the id becomes COMPLETED. Nothing else changes, and nothing changes if there is no such task. |
| KidTaskModel.RateTaskStep | src/kidtask.py:432-468 | Accepted only for a non-child, when the last task with the id is COMPLETED and the rating is 1..5. Then the task becomes APPROVED with that rating, and its points are added with wrap-around to both counters. Otherwise nothing changes. |
| KidTaskModel.AddWishStep | src/kidtask.py:471-489 | Only for a child: one wish is appended with id "W"+(n+1), status REQUESTED and minimum level equal to the current level; nothing else changes. |
| KidTaskModel.ApproveWishStep | src/kidtask.py:498-515 | Only for a parent: the first REQUESTED wish with the id becomes APPROVED; nothing else changes. |
| KidTaskModel.RedeemWishStep | src/kidtask.py:518-545 | Accepted only for a child, when the first wish with the id is APPROVED and `currentPoints >= cost`. Then it becomes REDEEMED and the cost is subtracted from the current points with wrap-around. The points earned and the tasks never change. |
| KidTaskModel.RedeemStaysNonNegative | src/kidtask.py:533-535 | With non-negative costs and non-negative current points, redeeming leaves the current points between 0 and their old value, lowered by exactly the cost. |
| KidTaskModel.ApplyAdvances | src/kidtask.py:378-545 | No handler removes a task or wish, edits anything but status (and a task's rating), or moves a status backwards. |
| KidTaskModel.ApplyAllAdvances | src/kidtask.py:378-545 | The same holds for any sequence of handler calls. |
| KidTaskModel.ApplyKeepsRatings | src/kidtask.py:452-456 | Tasks are rated 1..5 once approved and 0 before, and every handler keeps it so. |
| KidTaskModel.ApplyKeepsIdsInOrder | src/kidtask.py:378-489 | Ids "T1".."Tn" and "W1".."Wm" in list order stay so under every handler. |
| KidTaskModel.TaskIdInjective | src/kidtask.py:400 | Distinct task numbers give distinct ids. |
| KidTaskModel.WishIdInjective | src/kidtask.py:487 | Distinct wish numbers give distinct ids. |
| KidTaskModel.RatedTaskIsSelectedRow | src/kidtask.py:440-442 | With ids in order, the task picked by id for rating is the selected row itself. |
| KidTaskModel.RedeemedWishIsSelectedRow | src/kidtask.py:526-528 | With ids in order, the wish picked by id for redemption is the selected row itself. |
| KidTaskModel.ApprovedPointsUpdate | src/kidtask.py:452-459 | Changing one task changes the sum of approved points by that task's difference. |
| KidTaskModel.RedeemedCostUpdate | src/kidtask.py:533-535 | Changing one wish changes the sum of redeemed costs by that wish's difference. |
| KidTaskModel.LedgerAfterRate | src/kidtask.py:452-459 | Approving a task keeps: earned points equal the approved tasks' points, and current points equal those minus redeemed costs (mod 2^32). |
| KidTaskModel.LedgerAfterRedeem | src/kidtask.py:533-535 | Redeeming a wish keeps the same ledger balance. |
| KidTaskModel.ApplyKeepsLedger | src/kidtask.py:378-545 | Every handler keeps the ledger balance. |
| KidTaskModel.FreshState | src/kidtask.py:75-76 | A first start, with no saved data and both counters 0, is consistent. |
| KidTaskModel.ApplyAllConsistent | src/kidtask.py:378-545 | From a consistent state, any sequence of handler calls keeps ratings, ids and the ledger consistent. |
| KidTask.KidTaskApp.constructor | src/kidtask.py:171-175 | The application starts from the loaded lists and counters and the chosen role. |
| KidTask.KidTaskApp.Login | src/kidtask.py:239-240 | `login` sets the role, as `LoginStep` describes. |
| KidTask.KidTaskApp.RefreshDashboard | src/kidtask.py:359-376 | The level shown is `getLevel()`, the progress bar is `total % 50`, and the wish rows are exactly the visible wishes in list order. |
| KidTask.KidTaskApp.ShowAddTaskDialog | src/kidtask.py:378-403 | The handler makes exactly the change `AddTaskStep` describes. |
| KidTask.KidTaskApp.MarkTaskCompleted | src/kidtask.py:412-429 | The loop with early return makes exactly the change `MarkCompletedStep` describes. |
| KidTask.KidTaskApp.ShowRateTaskDialog | src/kidtask.py:432-468 | The selection loop and the update make exactly the change `RateTaskStep` describes. |
| KidTask.KidTaskApp.ShowAddWishDialog | src/kidtask.py:471-489 | The handler makes exactly the change `AddWishStep` describes. |
| KidTask.KidTaskApp.ApproveWish | src/kidtask.py:498-515 | The loop makes exactly the change `ApproveWishStep` describes. |
| KidTask.KidTaskApp.RedeemWish | src/kidtask.py:518-545 | The loop makes exactly the change `RedeemWishStep` describes. |

## Left out

- The PyQt5 and Swing interfaces are not modelled. This covers `BeePlanApp`, the schedule view, the report text, and KidTask's panels, tables, buttons and message dialogs. They are presentation only.
- The `QThread` and `pyqtSignal` plumbing of `SchedulerWorker` is not modelled. `run` returns the boolean that `solve(0)` gives.
- File and JSON input and output (`load_file`, KidTask's `DataManager`) are not modelled. Only the CSV line format of a task and a wish is. The KidTask constructor takes the loaded lists and counters as parameters.
- The unused `rules` parameter, the unused `random` import and the empty CENG/SENG branch of `is_valid` have no behaviour and are not modelled.
- Parsing of typed input is not modelled. The handlers take the already-parsed points, cost and rating. The "Invalid input" path that `Integer.parseInt` triggers on a malformed entry is left out.
- A cancelled dialog or an empty row selection ends a handler before any change. The model treats that as not calling the handler.
- The selected table row is passed as the id shown in that row.
- `schedule_grid` maps a slot to the `Course` object. The model stores the course's index in the sorted list.
- Timetable.Store: a `defaultdict(list)` keeps a key whose list became empty after `remove`, and the reads in `is_valid` (lines 70, 74 and 87 of `src/beeplan.py`) add a key with an empty list for an instructor or year not yet present. The model's maps never hold such a key: `Store` deletes it, because a missing key and an empty list read alike. Statements that the schedules are restored "exactly" are equalities up to this normal form.
- OccupancyFacts.RemoveFirst: requires the pair to be present. Python's `list.remove` raises `ValueError` otherwise, and the rollback is proved never to reach that case.
- Scheduler.SchedulerWorker.Run: requires the empty occupancy a new worker has. The application builds a new worker for every generation, so a second `run` on the same worker does not occur.
- The day, start-hour and room loops of `solve` are three methods, each holding one of the loops, and the bodies of the commit and rollback loops are methods of their own. The candidate order, the early `return True` and the mutation of the worker's fields are as in the source; only the code is divided differently.
- TimetableSoundness.PlacedBlockShape: requires `hours >= 1`. A course of zero or fewer hours gets an empty block, and no room is checked for it.
- JavaLang.ParseInt: accepts only ASCII digits. Java also accepts other Unicode decimal digits.
- KidTaskModel.TaskId: `"T" + (tasks.size() + 1)` would wrap once a list held 2^31 - 1 entries. The model numbers with unbounded naturals.
- KidTaskModel.RedeemStaysNonNegative: requires non-negative wish costs. The source accepts a negative typed cost. Redeeming such a wish raises the current points and can wrap.
- KidTaskModel.Ledger: holds modulo 2^32, because both counters wrap. It holds for a fresh start and is kept by every handler. Saved files with other counters are not checked.
- In Java, `markTaskCompleted`, `showRateTaskDialog`, `approveWish` and `redeemWish` update list elements in place. The model replaces the element at its index in the sequence. No two list elements alias one another, so nothing observable is lost.
