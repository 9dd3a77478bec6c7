# java-kanban in Dafny

A model of the task tracker in `src/main/java` of java-kanban:

- **Entities.** Tasks, subtasks and epics (`task/Task.java`, `task/Subtask.java`, `task/Epic.java`).
- **`InMemoryTaskManager`.** This is the in-memory registry. It keeps three id-keyed maps and one shared id counter. Beside them it keeps the 15-minute interval allocator, the priority index ordered by (start, id), and the epic aggregator that recomputes an epic's status and time from its subtasks.
- **`InMemoryHistoryManager`.** This is the access history: a doubly linked list of ids plus an id-to-node map.
- **The line format of `FileBackedTasksManager`.** This covers record lines, the history line, and loading a manager back from the lines of its file.

**How the model is built**

- **Entities are values.** There is one datatype `Task`. Its `kind` is the runtime class: a plain task, a subtask with its epic id, or an epic with its subtask id set and end time. Its `taskType` is the type tag.
- **Time** is a count of minutes or the sentinel `Max`, which stands for `LocalDateTime.MAX`. A bucket key `yyyy-MM-dd-HH-mm` is the quarter-hour count `minute / 15`.
- **The two managers are classes.**
  - `Manager.TaskManager` has the maps, the bucket set `intervals`, the index `sortedTasks` (a strictly ordered sequence) and the counter.
  - `History.HistoryManager` keeps a node arena (`seq<Node>`), head and tail indices (-1 for null), the id-to-node map and a ghost view `Contents`.
- **Failures are values.**
  - Each exception the source throws is an error value (`ManagerError`, `Undefined`, `DecodeError`, `LoadError`).
  - A null pointer dereferenced by the source is the error `NullReference`, together with the partial state the source leaves.
- **Reading a file.** `Loading.Load` states what `loadFromFile` makes of the lines of a file. `FileBacked.LoadFromLines` is the loop that does it, proved against `Load`. Both take a `Codec.Splitting`: `AsWritten` cuts each record line with `split(",")` as the source does, and `AllColumns` keeps the empty columns at the end, which is the corrected reading of the finding below. `Saving.SaveThenLoad` proves that what `save` writes loads back under the corrected reading, for every state that satisfies `Saving.Savable`:
  - the task map holds only plain `Task` objects of type TASK;
  - every record is writable (`Codec.Writable`: an id in the `long` range, a name and a description present and without commas, a duration in the `int` range, and for a subtask type SUBTASK and an epic id in the `long` range);
  - every subtask's epic is stored, and each epic's ids are exactly the subtasks that name it;
  - the history holds distinct ids, each of them stored.

  Under the reading as written, for the same states, it proves the load throws exactly when a saved task or epic has an empty description and empty epic, time and duration columns; otherwise the load gives the same result. The states the source can reach outside these conditions are listed under "Saving.SaveThenLoad" in "## Left out".

**Where the tests and the code disagree**

The code is followed:

- The format test of `FileBackedTasksManagerTest.java` expects `MAX` and `0` to be written literally. `taskToString` writes empty columns for them.

## Model

| member | source | states |
|---|---|---|
| Tasks.NewTask | src/main/java/task/Task.java:7-23 | a new task has type TASK, status NEW, duration 0, the sentinel start and no id, name or description |
| Tasks.EndTime | src/main/java/task/Task.java:83-85 | the end is the start plus the duration in minutes; a zero-duration task ends at its start; a non-negative duration never ends before the start |
| Tasks.EqualsIsEquivalence | src/main/java/task/Task.java:97-103 | `equals` is reflexive, symmetric and transitive, and ignores name, description, status and time |
| Tasks.HashCodeFollowsIdAndType | src/main/java/task/Task.java:105-108 | the hash code depends on id and type only: equal ids and types, or equal objects of one type, hash alike |
| Tasks.SettersKeepIdentity | src/main/java/task/Task.java:29-81 | every setter but `setId` keeps `equals` and `hashCode`; `setId` keeps equality exactly when the id is unchanged |
| Tasks.SettersCommute | src/main/java/task/Task.java:29-81 | each setter writes its own field only: setters of different fields commute, and each field reads back what was set |
| Subtasks.NewSubtask | src/main/java/task/Subtask.java:9-13 | `Subtask(epicId)` is a subtask of that epic with type SUBTASK and the Task defaults |
| Subtasks.NewSubtaskNoArg | src/main/java/task/Subtask.java:6-7 | the no-argument constructor leaves the epic id at 0 and the type TASK |
| Subtasks.EpicIdIsFixed | src/main/java/task/Subtask.java:4-17 | `getEpicId` returns the constructor argument, whatever setters run afterwards, and the type stays SUBTASK |
| Subtasks.SubtaskEqualityIgnoresEpic | src/main/java/task/Task.java:97-103 | two subtasks with one id are equal whatever their epics; a subtask never equals a plain task |
| Epics.NewEpic | src/main/java/task/Epic.java:10-21 | a new epic has type EPIC, no subtask ids, duration 0, sentinel start and end, status NEW and no id |
| Epics.AddSubtaskId | src/main/java/task/Epic.java:27-29 | adds the id to the set and changes nothing else; adding a present id changes nothing |
| Epics.RemoveSubtaskId | src/main/java/task/Epic.java:31-33 | removes the id from the set and changes nothing else; removing an absent id changes nothing |
| Epics.ClearSubtaskIds | src/main/java/task/Epic.java:35-37 | empties the set and changes nothing else |
| Epics.SetEndTime | src/main/java/task/Epic.java:39-41 | sets the end time and changes nothing else |
| Epics.SubtaskIdSetLaws | src/main/java/task/Epic.java:27-37 | adding is idempotent; remove undoes add of a new id; add undoes remove of a present id; clear forgets an add |
| Epics.GetDuration | src/main/java/task/Epic.java:43-84 | fails with "empty subtask list" exactly when the time is default and there are no subtasks; otherwise the stored duration |
| Epics.GetStartTime | src/main/java/task/Epic.java:68-84 | succeeds exactly when the start is not the sentinel and either the duration is non-zero or there are subtasks. It then gives the stored start. The failure is "empty list" exactly when there are no subtasks |
| Epics.GetEndTime | src/main/java/task/Epic.java:54-84 | succeeds exactly when the time is not default, or when there are subtasks and the end is not the sentinel. It then gives the stored end. The failure is "empty list" exactly when there are no subtasks |
| Epics.NewEpicHasNoTime | src/test/java/manager/TaskManagerTest.java:90-101 | all three getters of a new epic fail with "empty subtask list" |
| Epics.DurationOf | src/main/java/task/Epic.java:43-52 | the dynamically dispatched `getDuration`: a task or subtask always answers with its field |
| Epics.StartTimeOf | src/main/java/task/Epic.java:68-80 | the dynamically dispatched `getStartTime`: a task or subtask always answers with its field |
| Intervals.Range | src/main/java/manager/InMemoryTaskManager.java:72-75 | the bucket keys from `lo` through `hi` inclusive, and no others |
| Intervals.IntervalKeys | src/main/java/manager/InMemoryTaskManager.java:53-77 | no keys for the sentinel start. Otherwise the consecutive quarter hours from the one holding the start through the one holding the end, and exactly the item's buckets |
| Intervals.ZeroDurationHoldsOneBucket | src/main/java/manager/InMemoryTaskManager.java:66-75 | a timed item of zero duration still holds exactly one bucket |
| Intervals.BucketsMeet | src/main/java/manager/InMemoryTaskManager.java:37-77 | the bucket sets of two timed items are disjoint exactly when one's last bucket comes before the other's first |
| Intervals.AllocatorScenario | src/test/java/manager/TaskManagerTest.java:18-40 | the quarter hours of the allocator test's items: the shortened task and the early one fit side by side, the 55-minute one collides, an untimed task holds nothing |
| Priority.KeyLessIsStrictTotalOrder | src/main/java/manager/InMemoryTaskManager.java:22 | the (start, id) comparator is a strict total order: irreflexive, asymmetric, transitive and total on distinct keys |
| Priority.InsertAddsNewKey | src/main/java/manager/InMemoryTaskManager.java:127 | `TreeSet.add` adds the item exactly once when its key is new, and otherwise leaves the index as it was |
| Priority.InsertKeepsOrder | src/main/java/manager/InMemoryTaskManager.java:22 | the index stays ordered after an add, and holds the old items plus the new one when its key was new |
| Priority.Without | src/main/java/manager/InMemoryTaskManager.java:173 | removing a set of keys keeps exactly the items whose key is not in the set |
| Priority.WithoutKeepsOrder | src/main/java/manager/InMemoryTaskManager.java:173 | removing keys keeps the index ordered |
| Priority.WithoutNoMatch | src/main/java/manager/InMemoryTaskManager.java:173 | removing keys that no item has changes nothing |
| Priority.Remove | src/main/java/manager/InMemoryTaskManager.java:147-148 | `TreeSet.remove` drops the items with the removed one's key, keeps the order, and changes nothing when the key is absent |
| Priority.WithoutWithout | src/main/java/manager/InMemoryTaskManager.java:173 | removing two key sets one after the other is removing their union |
| Priority.UnscheduledLast | src/main/java/manager/InMemoryTaskManager.java:22-82 | in the ordered index, every item after one with the sentinel start also has the sentinel start |
| Priority.PriorityScenario | src/test/java/manager/TaskManagerTest.java:67-85 | the five items of the ordering test, added in the test's order, are listed as 1, 4, 3, 5, 2 |
| Aggregator.StatusLaw | src/main/java/manager/InMemoryTaskManager.java:362-379 | no statuses give NEW, statuses all alike give that status, and any mix gives IN_PROGRESS, whatever their order |
| Aggregator.MixedIsInProgress | src/main/java/manager/InMemoryTaskManager.java:367-369 | two different statuses among the subtasks give IN_PROGRESS |
| Aggregator.UpdateStatus | src/main/java/manager/InMemoryTaskManager.java:362-379 | the loop with `break` sets exactly the status rule's result when every id resolves, and changes only the status. When some id does not resolve, it either dereferences null (no result) or has already broken out with IN_PROGRESS |
| Aggregator.SumDurationsRemove | src/main/java/manager/InMemoryTaskManager.java:348-350 | the duration sum over a set of subtasks is one member's duration plus the sum over the rest |
| Aggregator.UpdateTime | src/main/java/manager/InMemoryTaskManager.java:333-360 | with every id resolved, the epic gets the duration summed over all its subtasks, the earliest start and the latest end among the timed ones. With no timed subtask it gets 0 and the sentinels. An id that does not resolve is a null dereference |
| Aggregator.RecomputedEpicGetters | src/main/java/task/Epic.java:43-80 | after a recompute the getters give: "empty list" with no subtasks; duration 0 and "no time intervals" with untimed subtasks only; otherwise the sum, the minimum start and the maximum end |
| Schedule.ReleasedStep | src/main/java/manager/InMemoryTaskManager.java:48-51 | releasing one more item takes exactly its buckets away |
| Schedule.ClaimKeeps | src/main/java/manager/InMemoryTaskManager.java:37-46 | a claim that meets no held bucket keeps every held item's buckets apart |
| Schedule.ReleaseKeeps | src/main/java/manager/InMemoryTaskManager.java:48-51 | releasing an item keeps the other items' buckets held |
| Schedule.ReplaceKeeps | src/main/java/manager/InMemoryTaskManager.java:141-146 | replacing an item whose new buckets are free once the old are released keeps the items apart |
| Schedule.ReclaimRestores | src/main/java/manager/InMemoryTaskManager.java:141-144 | re-claiming the released buckets after a failed update gives back exactly the set held before |
| History.Erase | src/main/java/manager/InMemoryHistoryManager.java:29-35 | drops the id and keeps every other id; an absent id changes nothing |
| History.EraseAll | src/main/java/manager/InMemoryTaskManager.java:97 | removing a set of ids keeps exactly the ids not in the set |
| History.EraseAllStep | src/main/java/manager/InMemoryTaskManager.java:97 | removing the ids of a set one at a time is removing the set |
| History.EraseKeepsNoDup | src/main/java/manager/InMemoryHistoryManager.java:64-82 | unlinking an id keeps the list free of duplicates |
| History.EraseAt | src/main/java/manager/InMemoryHistoryManager.java:64-82 | unlinking the node at any position, whether head, middle or tail, keeps the others in their order |
| History.AccessedOnceAtEnd | src/main/java/manager/InMemoryHistoryManager.java:18-27 | after `add`, the id is on the list exactly once, at the most recent end |
| History.NoDupLength | src/main/java/manager/InMemoryHistoryManager.java:10-12 | a list without duplicates is as long as its set of ids |
| History.LiveStep | src/main/java/manager/InMemoryHistoryManager.java:18-35 | an id is live after one more call exactly when that call is its add, or the call is about another id and it was live before |
| History.ReplayHoldsLiveIds | src/main/java/manager/InMemoryHistoryManager.java:18-35 | after any run of calls, the list holds each id once, exactly the ids added and not removed since. Its length is their number: there is no size cap |
| History.SpineDistinct | src/main/java/manager/InMemoryHistoryManager.java:95-105 | the nodes on a list without duplicate ids are distinct nodes |
| History.AppendKeepsLinked | src/main/java/manager/InMemoryHistoryManager.java:53-62 | linking a new node after the tail gives a well-linked list with the id at the end |
| History.UnlinkKeepsLinked | src/main/java/manager/InMemoryHistoryManager.java:64-82 | bypassing a node gives a well-linked list of the others, in order, with head and tail moved when it was at an end |
| History.Append | src/main/java/manager/InMemoryHistoryManager.java:53-62 | `linkLast` on the arena: a well-linked list whose last id is the new one |
| History.Unlink | src/main/java/manager/InMemoryHistoryManager.java:64-82 | `removeNode` on the arena: a well-linked list without the node, whose fields are nulled |
| History.Delete | src/main/java/manager/InMemoryHistoryManager.java:29-35 | `remove` keeps list and map in agreement and gives the erased list; an absent id changes nothing |
| History.Put | src/main/java/manager/InMemoryHistoryManager.java:18-27 | `add` keeps list and map in agreement and gives the list with the id moved or appended to the end |
| History.DeleteAll | src/main/java/manager/InMemoryTaskManager.java:97 | removing a set of ids one at a time keeps list and map in agreement and erases exactly the set |
| History.HistoryManager.NullEndsIffEmpty | src/main/java/manager/InMemoryHistoryManager.java:10-82 | head is null iff tail is null iff the history is empty, and `taskHistory` holds exactly the ids on the list |
| History.HistoryManager.constructor | src/main/java/manager/InMemoryHistoryManager.java:14-16 | a fresh history is empty |
| History.HistoryManager.Add | src/main/java/manager/InMemoryHistoryManager.java:18-27 | a null task changes nothing; otherwise the id moves to, or is appended at, the most recent end. The invariant is kept |
| History.HistoryManager.Remove | src/main/java/manager/InMemoryHistoryManager.java:29-35 | erases the id and keeps the order of the rest; an absent id changes nothing |
| History.HistoryManager.RemoveAll | src/main/java/manager/InMemoryTaskManager.java:97 | removing a set of ids, one `remove` each, erases exactly that set |
| History.HistoryManager.GetHistory | src/main/java/manager/InMemoryHistoryManager.java:84-93 | the walk from head to tail lists the ids, oldest access first |
| ManagerState.ValuesOf | src/main/java/manager/InMemoryTaskManager.java:91-93 | lists each value of the map once, in some order of its keys |
| ManagerState.LookupEach | src/main/java/manager/InMemoryTaskManager.java:330 | looks up each id of the set once, giving null for an id the map does not hold |
| ManagerState.Claim | src/main/java/manager/InMemoryTaskManager.java:37-46 | all or nothing: succeeds exactly when no key of the item is held, and then holds all of them; otherwise the held set is unchanged |
| ManagerState.Unclaim | src/main/java/manager/InMemoryTaskManager.java:48-51 | takes exactly the item's keys out of the held set |
| ManagerState.UnclaimEach | src/main/java/manager/InMemoryTaskManager.java:98 | releasing every item of a map leaves only the buckets none of them covers |
| ManagerState.RemoveEach | src/main/java/manager/InMemoryTaskManager.java:173 | removing every item of a map from the index leaves it ordered, without exactly their keys |
| ManagerState.RecomputedKeepsIdentity | src/main/java/manager/InMemoryTaskManager.java:213-214 | a recomputed epic stays the epic stored under its id |
| ManagerState.RemoveKeys | src/main/java/manager/InMemoryTaskManager.java:317 | removing each id of a set from the map is the map less that set |
| ManagerState.ResetEpics | src/main/java/manager/InMemoryTaskManager.java:176-179 | every epic loses its subtask ids and returns to NEW; its time is left alone |
| ManagerState.RefreshEpic | src/main/java/manager/InMemoryTaskManager.java:333-379 | `updateStatus` then `updateTime`: the recomputed epic, or a null dereference that may leave the status changed |
| ManagerState.CreateSubtaskIn | src/main/java/manager/InMemoryTaskManager.java:195-216 | checks null, an existing id, a missing epic and a time collision, in that order, changing nothing on failure. Otherwise the subtask takes the next id, its buckets and a place in the index, joins its epic, and the epic is recomputed. Consistency is kept |
| ManagerState.AddTaskKeeps | src/main/java/manager/InMemoryTaskManager.java:122-127 | the counter's next value is in none of the three maps, and adding a task under it keeps ids unique and items apart |
| ManagerState.RemoveEpicKeeps | src/main/java/manager/InMemoryTaskManager.java:311-322 | dropping an epic and its subtasks without releasing their buckets still keeps consistency |
| ManagerState.UpdateSubtaskIn | src/main/java/manager/InMemoryTaskManager.java:219-238 | releases the stored version's buckets, and on a collision claims them back and throws with nothing else changed. Otherwise it replaces the stored version in the map, the buckets and the index. It recomputes the epic of the OLD version and moves no membership |
| ManagerState.RemoveSubtaskIn | src/main/java/manager/InMemoryTaskManager.java:241-256 | null or an absent id changes nothing. Otherwise it releases the buckets first, then takes the id out of its epic, the map and the index, and recomputes the epic. A missing epic is a null dereference with the buckets already released |
| ManagerState.DropSubtasks | src/main/java/manager/InMemoryTaskManager.java:173-174 | every subtask leaves the index and gives back its buckets, keeping consistency with the subtask map emptied |
| ManagerState.DropEpic | src/main/java/manager/InMemoryTaskManager.java:315-318 | the epic and the subtasks it names leave their maps; buckets and index are untouched; consistency is kept |
| Manager.TaskManager.constructor | src/main/java/manager/InMemoryTaskManager.java:27-35 | a fresh manager is empty, with the counter at 0 and an empty history |
| Manager.TaskManager.GenerateId | src/main/java/manager/InMemoryTaskManager.java:381-383 | returns the counter and then increments it |
| Manager.TaskManager.GetPrioritizedTasks | src/main/java/manager/InMemoryTaskManager.java:79-82 | the index, ordered by (start, id) |
| Manager.TaskManager.GetHistory | src/main/java/manager/InMemoryTaskManager.java:84-87 | the history's ids, oldest first |
| Manager.TaskManager.GetTasks | src/main/java/manager/InMemoryTaskManager.java:90-93 | every stored task once |
| Manager.TaskManager.ClearTasks | src/main/java/manager/InMemoryTaskManager.java:95-100 | erases the tasks' ids from the history, releases their buckets and empties the map. The index is NOT touched |
| Manager.TaskManager.GetTask | src/main/java/manager/InMemoryTaskManager.java:102-112 | null for a null or absent id; otherwise the stored task, which moves to the end of the history |
| Manager.TaskManager.CreateTask | src/main/java/manager/InMemoryTaskManager.java:114-130 | BadInput for null, then AlreadyExist for an id in the task map only, then TimeIntersection on a collision, with nothing changed. Otherwise the task takes the counter's value as its id, is stored, claims its buckets and enters the index. The id is fresh in all three maps |
| Manager.TaskManager.UpdateTask | src/main/java/manager/InMemoryTaskManager.java:132-149 | BadInput for null and NotFound for an absent id. Otherwise the stored version's buckets are released. On a collision they are re-claimed and it throws, leaving the map and index unchanged. Otherwise the new version replaces the old in the map, the buckets and the index |
| Manager.TaskManager.RemoveTask | src/main/java/manager/InMemoryTaskManager.java:151-162 | null or an absent id changes nothing; otherwise the task leaves the map, its buckets, the index and the history |
| Manager.TaskManager.GetSubtasks | src/main/java/manager/InMemoryTaskManager.java:165-168 | every stored subtask once |
| Manager.TaskManager.ClearSubtasks | src/main/java/manager/InMemoryTaskManager.java:170-180 | erases the subtasks from the history, the index and the buckets, empties the map, and resets every epic's ids and status but not its time |
| Manager.TaskManager.GetSubtask | src/main/java/manager/InMemoryTaskManager.java:182-192 | null for a null or absent id; otherwise the stored subtask, which moves to the end of the history |
| Manager.TaskManager.CreateSubtask | src/main/java/manager/InMemoryTaskManager.java:194-216 | `createSubtask`'s checks and effects as in `ManagerState.CreateSubtaskIn`, on the manager's fields; the task map is untouched |
| Manager.TaskManager.UpdateSubtask | src/main/java/manager/InMemoryTaskManager.java:218-238 | `updateSubtask`'s checks and effects on the manager's fields; a failed update leaves the held buckets as they were |
| Manager.TaskManager.RemoveSubtask | src/main/java/manager/InMemoryTaskManager.java:240-256 | `removeSubtask`'s effects on the manager's fields; the id leaves the history exactly when the subtask and its epic are found |
| Manager.TaskManager.GetEpics | src/main/java/manager/InMemoryTaskManager.java:259-262 | every stored epic once |
| Manager.TaskManager.ClearEpics | src/main/java/manager/InMemoryTaskManager.java:264-272 | erases every epic and subtask from the history, releases the subtasks' buckets, drops them from the index, and empties both maps |
| Manager.TaskManager.GetEpic | src/main/java/manager/InMemoryTaskManager.java:274-284 | null for a null or absent id; otherwise the stored epic, which moves to the end of the history |
| Manager.TaskManager.CreateEpic | src/main/java/manager/InMemoryTaskManager.java:286-297 | BadInput for null, then AlreadyExist for an id in the epic map; otherwise it is stored, as given, under the counter's value. No bucket or index change |
| Manager.TaskManager.UpdateEpic | src/main/java/manager/InMemoryTaskManager.java:299-308 | BadInput for null and a plain error for an absent id; otherwise the given epic is stored as-is, subtask ids included |
| Manager.TaskManager.RemoveEpic | src/main/java/manager/InMemoryTaskManager.java:310-322 | null or an absent id changes nothing. Otherwise the epic and the subtasks it names leave their maps and the history. Their buckets and index entries stay |
| Manager.TaskManager.GetEpicSubtasksOf | src/main/java/manager/InMemoryTaskManager.java:324-331 | NotFound exactly when the epic is absent; otherwise one lookup (null when absent) per id the epic names |
| Text.NatToString | src/main/java/manager/FileBackedTasksManager.java:60 | decimal digits without leading zeros |
| Text.IntToString | src/main/java/manager/FileBackedTasksManager.java:120-147 | `String.valueOf`: a minus sign before the digits of a negative number, and never a comma |
| Text.ParseDecimal | src/main/java/manager/FileBackedTasksManager.java:71-97 | accepts exactly an optional sign followed by at least one ASCII digit |
| Text.ParseLong | src/main/java/manager/FileBackedTasksManager.java:71-74 | `Long.parseLong`: the decimal grammar of ASCII digits, and a value within 64 bits |
| Text.ParseInt | src/main/java/manager/FileBackedTasksManager.java:97 | `Integer.parseInt`: the decimal grammar of ASCII digits, and a value within 32 bits |
| Text.DecimalRoundTrip | src/main/java/manager/FileBackedTasksManager.java:54-62 | parsing a printed number gives it back, in the 32- and 64-bit ranges too |
| Text.SplitAll | src/main/java/manager/FileBackedTasksManager.java:68 | cutting at every separator gives pieces without it |
| Text.TrimTrailing | src/main/java/manager/FileBackedTasksManager.java:68 | drops exactly the trailing empty pieces |
| Text.Split | src/main/java/manager/FileBackedTasksManager.java:68 | `String.split`: a string without the separator is its own single piece |
| Text.SplitAllJoin | src/main/java/manager/FileBackedTasksManager.java:144-146 | cutting a join at the separator gives the parts back when no part holds it |
| Text.SplitJoin | src/main/java/manager/FileBackedTasksManager.java:54-68 | `split` undoes `join` up to trailing empty parts, and exactly when the last part is not empty |
| Codec.ParseType | src/main/java/manager/FileBackedTasksManager.java:70 | `TaskType.valueOf`: the inverse of the type's name |
| Codec.ParseStatus | src/main/java/manager/FileBackedTasksManager.java:87 | `Status.valueOf`: the inverse of the status's name |
| Codec.TimeRoundTrip | src/main/java/manager/FileBackedTasksManager.java:92 | the start-time text reads back as the same time |
| Codec.TimeColumns | src/main/java/manager/FileBackedTasksManager.java:128-142 | a default start or duration is written as an empty column. An epic whose getters throw gets both columns empty |
| Codec.Columns | src/main/java/manager/FileBackedTasksManager.java:120-147 | exactly the header's eight columns, with the epic column non-empty exactly for SUBTASK |
| Codec.HeaderColumns | src/main/java/manager/FileBackedTasksManager.java:17 | the header line splits into its eight column names |
| Codec.ReadStart | src/main/java/manager/FileBackedTasksManager.java:89-93 | an empty time column, and only that, becomes the sentinel |
| Codec.ReadDuration | src/main/java/manager/FileBackedTasksManager.java:94-98 | an empty duration column, or one reading 0, becomes duration 0 |
| Codec.TimeColumnsReadBack | src/main/java/manager/FileBackedTasksManager.java:89-142 | the two time columns read back as the task's start and duration, or as the defaults when the getters throw |
| Codec.DecodeColumns | src/main/java/manager/FileBackedTasksManager.java:64-99 | a record is read exactly when its columns parse. Its id, type, name, status and description come from columns 0-4 and a subtask's epic from column 5. An epic has no ids and the default end. A missing or empty time is the sentinel, and a missing or empty duration is 0 |
| Codec.Reloaded | src/main/java/manager/FileBackedTasksManager.java:64-147 | a written and reread task keeps id, type, name, description, status and class; an epic comes back with no ids and the default end |
| Codec.ColumnsOfLine | src/main/java/manager/FileBackedTasksManager.java:144-146 | a writable task's line cuts back into its eight columns |
| Codec.RecordRoundTrip | src/main/java/manager/FileBackedTasksManager.java:64-147 | reading a written task back keeps id, type, status, name, description, epic id, start and duration. A task or subtask comes back equal; an epic loses its ids and end, and gets its time back when its getters answer |
| Codec.DecodeTrimmed | src/main/java/manager/FileBackedTasksManager.java:89-98 | trailing empty columns that `split` drops do not change the record once five columns remain (six for a subtask) |
| Codec.AsWrittenLosesEmptyTail | src/main/java/manager/FileBackedTasksManager.java:68-88 | with `split(",")` as written, a line fails to read back exactly when the description is empty and the epic, time and duration columns are all empty. It then fails at column 4. Every other line reads as with all columns kept |
| Codec.ReadWritten | src/main/java/manager/FileBackedTasksManager.java:68-147 | a written record read back either way: as written it fails at column 4 exactly when it loses its empty tail, and otherwise both readings give the record reread. A subtask never loses its tail |
| Codec.DecodeStopsAtDescription | src/main/java/manager/FileBackedTasksManager.java:68-88 | four columns that otherwise parse fail with column 4 missing |
| Codec.EmptyDescriptionIsUnreadable | src/main/java/manager/FileBackedTasksManager.java:68-88 | the line `0,TASK,n,NEW,,,,` fails as written and reads as the task when all columns are kept |
| Codec.Decimals | src/main/java/manager/FileBackedTasksManager.java:60 | one decimal text per history id, in order |
| Codec.ParseLongs | src/main/java/manager/FileBackedTasksManager.java:56 | succeeds exactly when every piece parses as a long, giving them in order |
| Codec.HistoryToString | src/main/java/manager/FileBackedTasksManager.java:59-62 | the history line is empty exactly for an empty history |
| Codec.HistoryRoundTrip | src/main/java/manager/FileBackedTasksManager.java:54-62 | `historyFromString(historyToString(h)) == h` for a non-empty history of 64-bit ids |
| Loading.Put | src/main/java/manager/FileBackedTasksManager.java:72-84 | a read record goes into exactly one map, chosen by its type column |
| Loading.GetTaskUniversal | src/main/java/manager/FileBackedTasksManager.java:245-255 | finds an id in the task, then the subtask, then the epic map; null when none holds it |
| Loading.FirstBlank | src/main/java/manager/FileBackedTasksManager.java:31-36 | the first blank line after the header, where history mode starts |
| Loading.HistoryLine | src/main/java/manager/FileBackedTasksManager.java:31-40 | the first non-blank line after the first blank one, if any |
| Loading.HistoryLineAt | src/main/java/manager/FileBackedTasksManager.java:33-40 | a non-blank line after only blank lines past the first blank one is the history line |
| Loading.LoadRecords | src/main/java/manager/FileBackedTasksManager.java:31-44 | reading the record lines one by one, with either split, leaves each map holding its own class under its own ids. A failure is always an unreadable record |
| Loading.LoadRecordsFailureSticks | src/main/java/manager/FileBackedTasksManager.java:42 | once a record line throws, the load has failed with that error, with either split |
| Loading.WithSubtaskIds | src/main/java/manager/FileBackedTasksManager.java:48 | adds ids to an epic's set and changes nothing else |
| Loading.LinkStep | src/main/java/manager/FileBackedTasksManager.java:45-49 | linking one more subtask adds its id to exactly its epic |
| Loading.LinkedAtEnd | src/main/java/manager/FileBackedTasksManager.java:45-49 | after all subtasks, each epic's ids are exactly the subtasks naming it |
| Loading.Linked | src/main/java/manager/FileBackedTasksManager.java:45-49 | the rebuilt epic map has the same ids and holds epics |
| Loading.Load | src/main/java/manager/FileBackedTasksManager.java:24-52 | with either split, `AsWritten` being the source's, a loaded manager's maps hold their own class under their own ids |
| Loading.LinkSubtasks | src/main/java/manager/FileBackedTasksManager.java:45-49 | the loop adds every subtask to its epic. It fails exactly when some subtask names an epic that was not loaded, and otherwise gives the rebuilt epic map |
| FileBacked.CreateTaskFromString | src/main/java/manager/FileBackedTasksManager.java:64-99 | with the line split as the source does (`AsWritten`) or with all columns kept, a read record goes into the map of its type. No bucket, index entry or id is drawn. An unreadable line throws and changes nothing |
| FileBacked.ReplayHistory | src/main/java/manager/FileBackedTasksManager.java:38-39 | each id, in order, is looked up in the three maps and added to the history; an unknown id gives null and is ignored |
| FileBacked.ReadingRecord | src/main/java/manager/FileBackedTasksManager.java:41-43 | a non-empty line before the first blank one is the next record: read, it extends the maps, and unreadable, it ends the load |
| FileBacked.ReadLines | src/main/java/manager/FileBackedTasksManager.java:27-44 | the loop with `nextLineIsHistory`, with either split, reads exactly the records before the first blank line, then replays the first non-empty line after it. It fails exactly as `Load` says |
| FileBacked.LoadFromLines | src/main/java/manager/FileBackedTasksManager.java:24-52 | `loadFromFile` over the lines of a file, with the source's split (`AsWritten`) or the corrected one, returns the manager, or the error, that `Load` describes, with no bucket, an empty index and a counter at 0 |
| Saving.Relinked | src/main/java/manager/FileBackedTasksManager.java:45-49 | an epic read back and relinked has its ids again |
| Saving.PutAllConcat | src/main/java/manager/FileBackedTasksManager.java:31-44 | reading two runs of record lines is reading one after the other |
| Saving.LoadTexts | src/main/java/manager/FileBackedTasksManager.java:120-147 | the written lines of writable tasks load as those tasks, reread, put in order. With the source's split the load instead fails at column 4 exactly when some record loses its empty tail |
| Saving.PutListing | src/main/java/manager/FileBackedTasksManager.java:104-112 | putting a map's listed values fills the map of their type with the reread values |
| Saving.RestoreSaved | src/main/java/manager/FileBackedTasksManager.java:39 | replaying a duplicate-free history whose ids are all stored gives the same history back |
| Saving.Layout | src/main/java/manager/FileBackedTasksManager.java:101-114 | in the written body, the records are the lines before the blank one, and the history line is the one after it when present |
| Saving.SavedLayout | src/main/java/manager/FileBackedTasksManager.java:101-118 | after the header, the records are exactly the lines before the first blank one, and the history line is present exactly when the history is not empty |
| Saving.ReadBack | src/main/java/manager/FileBackedTasksManager.java:101-112 | reading the lines of tasks, subtasks and epics, each map listed in any order, gives back the three maps of reread values |
| Saving.Relink | src/main/java/manager/FileBackedTasksManager.java:45-49 | relinking the reread epics gives each epic its original ids |
| Saving.LoadOf | src/main/java/manager/FileBackedTasksManager.java:24-52 | what `loadFromFile` makes of lines whose records and history both read |
| Saving.ListedLosesTail | src/main/java/manager/FileBackedTasksManager.java:104-112 | a listing of a map, in any order, holds a record that loses its tail exactly when the map does |
| Saving.SubtasksKeepTail | src/main/java/manager/FileBackedTasksManager.java:106-108 | the written subtasks of a savable state never lose their tails |
| Saving.SavedLosesTail | src/main/java/manager/FileBackedTasksManager.java:101-112 | the saved record lines hold one that loses its tail exactly when a task or an epic of the state does |
| Saving.SavedRecords | src/main/java/manager/FileBackedTasksManager.java:101-112 | the written record lines load as the manager's maps, each epic reread. With the source's split they fail at column 4 exactly when a task or an epic loses its empty tail |
| Saving.SaveThenLoad | src/main/java/manager/FileBackedTasksManager.java:24-147 | for a `Savable` state (only plain TASK records in the task map, writable records, every subtask's epic stored, each epic's ids equal to the subtasks naming it) and a history of stored, distinct ids: under the corrected split, loading what `save` writes gives back the tasks and subtasks unchanged and the history unchanged. Each epic comes back with its ids (listing orders are arbitrary). Under the source's split the load throws `MissingColumn(4)` exactly when a task or an epic has an empty description and empty last three columns, and otherwise gives the same result |
| Saving.RelinkedKeeps | src/main/java/manager/FileBackedTasksManager.java:120-147 | an epic back from the file keeps id, name, description, status, type and ids, and gets the default end. It keeps its time when its getters answer, and is unchanged when its end was already the default |

## Left out

- Aliasing: entities are values. In the source the maps hold objects that callers may still change, and the manager changes some of them in place (`setId`, an epic's ids and status). The model writes each changed value back into its map. The fluent setters of `Task` become functions that return the updated value.
- Manager.TaskManager.CreateTask and Manager.TaskManager.UpdateTask: require the argument not to be an epic object, because the model's buckets and priority keys are defined for tasks and subtasks only. Handed an `Epic`, the source does one of three things, depending on the epic's fields:
  - when `getStartTime` throws (the epic has a default start or duration and an empty id set, or a default start), `getIntervalKeys` gives no keys, the epic is stored in the task map (InMemoryTaskManager.java:126 or :146), and then the comparator of `sortedTasks` throws when it calls `getStartTime`;
  - when the start answers but the end is still `Epic.DEFAULT_END_TIME` (`LocalDateTime.MAX`), `getIntervalKeys` throws before anything is stored: a `DateTimeException` at `end.plusMinutes(15)` (InMemoryTaskManager.java:72) when the epic has its own start and a non-zero duration, or the undefined-time exception of `getEndTime` (Epic.java:62-63) when it has a default duration and some ids;
  - when the start answers and an end was set with the public `setEndTime` (Epic.java:39-41), the epic claims its buckets, is stored in the task map and enters the index with no exception.
- Saving.SaveThenLoad: holds only for `Savable` states with a history of stored, distinct ids. The source reaches other states, which the lemma says nothing about:
  - a `Subtask` in the task map, as `createTask(new Subtask(epicId))` makes (TaskManagerTest.java:62-64). Its line has type SUBTASK, so the load files it under the subtasks and adds it to its epic's ids (FileBackedTasksManager.java:72-84, 45-49), or throws at line 48 when that epic is absent;
  - a subtask moved to another epic by `updateSubtask` (InMemoryTaskManager.java:219-238), which never checks the new epic. When that epic is absent, the load throws at FileBackedTasksManager.java:48 (`MissingEpic`). When it exists, both epics' id sets are rebuilt from the subtasks' epic ids and differ from what was saved;
  - records that are not writable: see the Codec.Writable line below;
  - a history holding an id no map stores: its replay calls `add(null)`, which does nothing, so that id is lost.
- `HistoryManager.add` of a task whose id is null: the source keeps it under a null key; the model's history holds ids only, and a loaded task always has one.
- Intervals.IntervalKeys: requires a task or subtask. The manager only schedules those, since epic objects are kept out of `createTask` and `updateTask` here. The source's handling of an epic's throwing getters inside `getIntervalKeys` is not modelled; `ManagerState.Claim` and `ManagerState.Unclaim` carry the same requirement.
- `linkFirst`: never called.
- Tasks.HashCode: takes each enum constant's hash to be its ordinal and `Long.hashCode` to be the value, without 32-bit wrap-around, because the enum hash is an identity hash that varies from run to run; only the dependence on id and type is claimed.
- HashMap and HashSet iteration order. The order of `getTasks`, `getSubtasks`, `getEpics` and `getEpicSubtasks` is unspecified: their ghost `order` is an arbitrary listing. `Saving.SaveThenLoad` holds for any listing order, and `Loading.LinkSubtasks` visits the subtasks in any order.
- `LocalDateTime`: minutes and a sentinel instead of calendar arithmetic, and a decimal minute count instead of the ISO text of `toString` and `parse`. Seconds and nanoseconds are not modelled.
- Integer widths. These are not modelled:
  - a wrap-around of the 32-bit duration sum in `updateTime`;
  - overflow of `long` ids or of the counter;
  - the 32-bit minute arithmetic of `LocalDateTime`.
  The file format's range checks on parsing (`Long.parseLong`, `Integer.parseInt`) are modelled.
- Codec.Writable: names and descriptions that hold a comma, and null names or descriptions (written as the text `null`), are excluded from the round trip. Such records do not read back in the source either.
- Line separators inside a name or description: the file is modelled as its sequence of lines, so the extra line break such a text makes in a real file is not seen by `Saving.SaveThenLoad`.
- File I/O: `save`, `BufferedReader` and `BufferedWriter`, and the overrides that call the superclass and then `save`. `Saving.SaveLines` states the lines `save` writes, and `FileBacked.LoadFromLines` takes the lines of the file as input. A `ManagerSaveException` on write failure is not modelled.
- A failing `createTaskFromString` in the source may have changed the maps before it throws, but `loadFromFile` then throws and returns no manager. The model's failure carries no partial maps.
- `loadFromFile` leaves `sequenceId` at 0, so the next create on a loaded manager reuses id 0 and may overwrite a loaded entity. `FileBacked.LoadFromLines` states the counter at 0; no property about it is claimed.
- Text.ParseDecimal: accepts ASCII digits only. `Long.parseLong` and `Integer.parseInt` read digits with `Character.digit(c, 10)`, which also accepts the other Unicode decimal digits (`"١٢"` reads as 12). The program itself writes only ASCII, so only a hand-edited file is read differently.
- Text.ParseLong: the same ASCII-only grammar as `Text.ParseDecimal`, for `Long.parseLong`.
- Text.ParseInt: the same ASCII-only grammar as `Text.ParseDecimal`, for `Integer.parseInt`.
- The end time of an epic is not written to the file, so an epic comes back with the default end (`Saving.RelinkedKeeps`).
- The exception classes, `TaskDataUndefinedException` and `ManagerTaskException` with its subclasses, are error values. Their messages are not modelled.
- The HTTP server, the key-value client, `HttpTaskManager`, `TaskAdapter`, `Managers` and `Main`: networking, JSON and wiring. `Managers.getDefaultHistory` is replaced by constructing the history directly.
- The older packages under `src/` and `src/main/java/tasks/`: superseded revisions. `FileBackedTasksManager.java:3` and `InMemoryHistoryManager.java:3` import the superseded `tasks` package. The model reads them against the `task` package, the only consistent reading, since `FileBackedTasksManager` uses `Task.DEFAULT_START_TIME`, which exists only in `task.Task`.
- `TaskType` and `Status` are modelled from their uses: `valueOf`, `toString` and the `switch` in `createTaskFromString`.
- The file-format expectations of `FileBackedTasksManagerTest.java` come from another revision. The code is followed instead.
- `toString` of the entities: display text only.

## Findings

| source | as written | input that shows it | evidently intended | confidence | as-written member | corrected member |
|---|---|---|---|---|---|---|
| src/main/java/manager/FileBackedTasksManager.java:68-88 | `value.split(",")` drops trailing empty fields. A task with an empty description and default time and duration is written with empty columns 4 to 7, so `split` yields four pieces; `split[4]` then throws and `loadFromFile` fails | a TASK with id 0, name "n", description "" and default time and duration, written as the line `0,TASK,n,NEW,,,,` | every line `taskToString` writes reads back, as the empty-column defaults at lines 89-98 intend | not executed | Codec.EmptyDescriptionIsUnreadable | Codec.RecordRoundTrip |
