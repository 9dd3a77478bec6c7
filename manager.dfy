/** `InMemoryTaskManager`: three id-keyed maps of tasks, subtasks and epics
    that share one id counter, the interval allocator (`intervals`), the
    priority index (`sortedTasks`) and the access history.

    Stored entities are values here: the Java maps hold objects that a
    caller may still change behind the manager's back, and the manager
    itself changes some of them in place (`setId`, an epic's ids and
    status); the model writes each changed value back into its map. */
module Manager {
  import opened Wrappers
  import opened Tasks
  import opened Epics
  import opened Subtasks
  import opened Intervals
  import opened Priority
  import opened Aggregator
  import opened Schedule
  import opened ManagerState
  import History

  class TaskManager {
    var intervals: set<int>
    var sortedTasks: seq<Task>
    var tasks: map<int, Task>
    var subtasks: map<int, Task>
    var epics: map<int, Task>
    const history: History.HistoryManager
    var sequenceId: int

    /** What every operation keeps, whatever it is given, and what a loaded
        manager has too: each map holds its class under its own ids, and the
        priority index is ordered. The operations that reach the history
        also keep `history.Valid()`. */
    ghost predicate Valid()
      reads this
    {
      && TaskMap(tasks) && SubtaskMap(subtasks) && EpicMap(epics)
      && Sorted(sortedTasks)
    }

    /** What a manager built by these operations from a fresh one has: every
        id was drawn from the counter, so ids are below it and no two maps
        share one, and no two scheduled items overlap in time. */
    ghost predicate Consistent()
      reads this
    {
      ConsistentState(tasks, subtasks, epics, sequenceId, intervals)
    }

    constructor ()
      ensures Valid() && Consistent() && history.Valid()
      ensures intervals == {} && sortedTasks == [] && sequenceId == 0
      ensures tasks == map[] && subtasks == map[] && epics == map[]
      ensures fresh(history) && history.Contents == []
    {
      intervals := {};
      sortedTasks := [];
      tasks := map[];
      subtasks := map[];
      epics := map[];
      sequenceId := 0;
      history := new History.HistoryManager();
    }

    /** `generateId`: the counter's value, then the counter moves on. */
    method GenerateId() returns (id: int)
      modifies this`sequenceId
      ensures id == old(sequenceId) && sequenceId == old(sequenceId) + 1
    {
      id := sequenceId;
      sequenceId := sequenceId + 1;
    }

    /** `getPrioritizedTasks`: the index in its order, by start time and
        then id, unscheduled items last. */
    method GetPrioritizedTasks() returns (r: seq<Task>)
      requires Valid()
      ensures r == sortedTasks && Sorted(r)
    {
      r := sortedTasks;
    }

    /** `getHistory`: the accessed ids, oldest first. */
    method GetHistory() returns (h: seq<int>)
      requires history.Valid()
      ensures h == history.Contents
    {
      h := history.GetHistory();
    }

    method GetTasks() returns (r: seq<Task>, ghost order: seq<int>)
      ensures History.NoDup(order) && forall k :: k in order <==> k in tasks
      ensures |r| == |order| && forall i | 0 <= i < |r| :: order[i] in tasks && r[i] == tasks[order[i]]
    {
      r, order := ValuesOf(tasks);
    }

    /** The part of `clearTasks` on the manager's own state: the tasks give
        back their buckets and the map is emptied; the index keeps them. */
    method DropAllTasks()
      requires Valid()
      modifies this
      ensures Valid()
      ensures old(Consistent()) ==> Consistent()
      ensures tasks == map[] && subtasks == old(subtasks) && epics == old(epics)
      ensures sortedTasks == old(sortedTasks) && sequenceId == old(sequenceId)
      ensures intervals == Released(old(intervals), old(tasks), old(tasks).Keys)
    {
      if Consistent() {
        ClearTasksKeeps(tasks, subtasks, epics, sequenceId, intervals);
      }
      var held := UnclaimEach(intervals, tasks);
      intervals, tasks := held, map[];
    }

    /** `clearTasks`: forgets the tasks in the history and gives back their
        buckets, but leaves them in the priority index. */
    method ClearTasks()
      requires Valid() && history.Valid()
      modifies this, history
      ensures Valid() && history.Valid()
      ensures old(Consistent()) ==> Consistent()
      ensures tasks == map[] && subtasks == old(subtasks) && epics == old(epics)
      ensures sortedTasks == old(sortedTasks) && sequenceId == old(sequenceId)
      ensures intervals == Released(old(intervals), old(tasks), old(tasks).Keys)
      ensures history.Contents == History.EraseAll(old(history.Contents), old(tasks).Keys)
    {
      history.RemoveAll(tasks.Keys);
      DropAllTasks();
    }

    method GetTask(id: Option<int>) returns (r: Option<Task>)
      requires Valid() && history.Valid()
      modifies history
      ensures Valid() && history.Valid()
      ensures r == if id.Some? then Lookup(tasks, id.value) else None
      ensures r.Some? ==> history.Contents == History.Accessed(old(history.Contents), id.value)
      ensures r.None? ==> history.Contents == old(history.Contents)
    {
      if id.None? {
        return None;
      }
      r := Lookup(tasks, id.value);
      if r.Some? {
        history.Add(r.value.id);
      }
    }

    /** `createTask`: refuses null, an id the task map already holds, and a
        time that meets a held bucket, in that order and without changing
        anything; otherwise the task takes the next id, its buckets and a
        place in the index. */
    method CreateTask(task: Option<Task>) returns (r: Result<int, ManagerError>)
      requires Valid()
      requires task.Some? ==> !IsEpic(task.value)
      modifies this
      ensures Valid()
      ensures old(Consistent()) ==> Consistent()
      ensures task.None? ==> r == Failure(BadInput)
      ensures task.Some? && task.value.id.Some? && task.value.id.value in old(tasks) ==> r == Failure(AlreadyExist)
      ensures task.Some? && !(task.value.id.Some? && task.value.id.value in old(tasks)) ==>
                (r.Success? <==> Buckets(task.value) !! old(intervals))
      ensures r.Failure? && task.Some? && r != Failure(AlreadyExist) ==> r == Failure(TimeIntersection)
      ensures r.Failure? ==>
                intervals == old(intervals) && sortedTasks == old(sortedTasks) && tasks == old(tasks)
                && sequenceId == old(sequenceId)
      ensures r.Success? ==> var t := SetId(task.value, r.value);
                && r.value == old(sequenceId) && sequenceId == old(sequenceId) + 1
                && tasks == old(tasks)[r.value := t] && intervals == old(intervals) + Buckets(task.value)
                && sortedTasks == Insert(old(sortedTasks), t)
      ensures r.Success? && old(Consistent()) ==>
                r.value !in old(tasks) && r.value !in old(subtasks) && r.value !in old(epics)
      ensures subtasks == old(subtasks) && epics == old(epics)
    {
      ghost var wasConsistent := Consistent();
      if task.None? {
        return Failure(BadInput);
      }
      var t := task.value;
      if t.id.Some? && t.id.value in tasks {
        return Failure(AlreadyExist);
      }
      var ok, held := Claim(intervals, t);
      if !ok {
        return Failure(TimeIntersection);
      }
      intervals := held;
      var id := GenerateId();
      var t' := SetId(t, id);
      assert Buckets(t') == Buckets(t);
      tasks := tasks[id := t'];
      InsertKeepsOrder(sortedTasks, t');
      sortedTasks := Insert(sortedTasks, t');
      if wasConsistent {
        AddTaskKeeps(old(tasks), subtasks, epics, id, old(intervals), t');
      }
      r := Success(id);
    }

    /** `updateTask`: the stored task's buckets are released first, so the
        new version may overlap its own old time; when the new time meets a
        held bucket, the old buckets are claimed again and nothing else
        changes. */
    method UpdateTask(task: Option<Task>) returns (r: Outcome<ManagerError>)
      requires Valid()
      requires task.Some? ==> !IsEpic(task.value)
      modifies this
      ensures Valid()
      ensures old(Consistent()) ==> Consistent()
      ensures task.None? ==> r == Fail(BadInput) && intervals == old(intervals)
      ensures task.Some? && !(task.value.id.Some? && task.value.id.value in old(tasks)) ==>
                r == Fail(NotFound) && intervals == old(intervals)
      ensures task.Some? && task.value.id.Some? && task.value.id.value in old(tasks) ==>
                var t, e := task.value, old(tasks)[task.value.id.value];
                var free := old(intervals) - Buckets(e);
                if Buckets(t) !! free then
                  && r == Pass && tasks == old(tasks)[t.id.value := t] && intervals == free + Buckets(t)
                  && sortedTasks == Insert(Remove(old(sortedTasks), e), t)
                else
                  r == Fail(TimeIntersection) && intervals == free + Buckets(e)
      ensures r.Fail? ==> tasks == old(tasks) && sortedTasks == old(sortedTasks)
      ensures r.Fail? && old(Consistent()) ==> intervals == old(intervals)
      ensures subtasks == old(subtasks) && epics == old(epics) && sequenceId == old(sequenceId)
    {
      ghost var wasConsistent := Consistent();
      if task.None? {
        return Fail(BadInput);
      }
      var t := task.value;
      if !(t.id.Some? && t.id.value in tasks) {
        return Fail(NotFound);
      }
      var id := t.id.value;
      var existing := tasks[id];
      var free := Unclaim(intervals, existing);
      var ok, held := Claim(free, t);
      if !ok {
        ok, held := Claim(free, existing);
        if wasConsistent {
          ReclaimTaskRestores(tasks, subtasks, epics, sequenceId, intervals, id);
        }
        intervals := held;
        return Fail(TimeIntersection);
      }
      intervals := held;
      tasks := tasks[id := t];
      sortedTasks := Remove(sortedTasks, existing);
      InsertKeepsOrder(sortedTasks, t);
      sortedTasks := Insert(sortedTasks, t);
      if wasConsistent {
        ReplaceTaskKeeps(old(tasks), subtasks, epics, sequenceId, old(intervals), id, t);
      }
      r := Pass;
    }

    /** The part of `removeTask` on the manager's own state: the task
        leaves the map, its buckets and the index. */
    method DropTask(k: int)
      requires Valid() && k in tasks
      modifies this
      ensures Valid()
      ensures old(Consistent()) ==> Consistent()
      ensures var e := old(tasks)[k];
                && tasks == old(tasks) - {k} && intervals == old(intervals) - Buckets(e)
                && sortedTasks == Remove(old(sortedTasks), e)
      ensures subtasks == old(subtasks) && epics == old(epics) && sequenceId == old(sequenceId)
    {
      var removed := tasks[k];
      if Consistent() {
        RemoveTaskKeeps(tasks, subtasks, epics, sequenceId, intervals, k);
      }
      var held := Unclaim(intervals, removed);
      tasks, intervals, sortedTasks := tasks - {k}, held, Remove(sortedTasks, removed);
    }

    /** `removeTask`: null or an absent id changes nothing; otherwise the
        task leaves the map, its buckets, the index and the history. */
    method RemoveTask(id: Option<int>)
      requires Valid() && history.Valid()
      modifies this, history
      ensures Valid() && history.Valid()
      ensures old(Consistent()) ==> Consistent()
      ensures !(id.Some? && id.value in old(tasks)) ==>
                tasks == old(tasks) && intervals == old(intervals) && sortedTasks == old(sortedTasks)
                && history.Contents == old(history.Contents)
      ensures id.Some? && id.value in old(tasks) ==> var e := old(tasks)[id.value];
                && tasks == old(tasks) - {id.value} && intervals == old(intervals) - Buckets(e)
                && sortedTasks == Remove(old(sortedTasks), e)
                && history.Contents == History.Erase(old(history.Contents), id.value)
      ensures subtasks == old(subtasks) && epics == old(epics) && sequenceId == old(sequenceId)
    {
      if id.None? || id.value !in tasks {
        return;
      }
      DropTask(id.value);
      history.Remove(id.value);
    }

    /** `getEpicSubtasks()`: every stored subtask. */
    method GetSubtasks() returns (r: seq<Task>, ghost order: seq<int>)
      ensures History.NoDup(order) && forall k :: k in order <==> k in subtasks
      ensures |r| == |order| && forall i | 0 <= i < |r| :: order[i] in subtasks && r[i] == subtasks[order[i]]
    {
      r, order := ValuesOf(subtasks);
    }

    method GetSubtask(id: Option<int>) returns (r: Option<Task>)
      requires Valid() && history.Valid()
      modifies history
      ensures Valid() && history.Valid()
      ensures r == if id.Some? then Lookup(subtasks, id.value) else None
      ensures r.Some? ==> history.Contents == History.Accessed(old(history.Contents), id.value)
      ensures r.None? ==> history.Contents == old(history.Contents)
    {
      if id.None? {
        return None;
      }
      r := Lookup(subtasks, id.value);
      if r.Some? {
        history.Add(r.value.id);
      }
    }

    /** `createSubtask` (`SubtaskCreated`). */
    method CreateSubtask(subtask: Option<Task>) returns (r: Result<int, ManagerError>)
      requires Valid()
      requires subtask.Some? ==> IsSubtask(subtask.value)
      modifies this
      ensures Valid()
      ensures old(Consistent()) ==> Consistent()
      ensures SubtaskCreated(old(subtasks), old(epics), old(sequenceId), old(intervals), old(sortedTasks), subtask,
                             subtasks, epics, sequenceId, intervals, sortedTasks, r)
      ensures tasks == old(tasks)
    {
      var subtasks', epics', n', held', sorted';
      subtasks', epics', n', held', sorted', r :=
        CreateSubtaskIn(tasks, subtasks, epics, sequenceId, intervals, sortedTasks, subtask);
      subtasks, epics, sequenceId, intervals, sortedTasks := subtasks', epics', n', held', sorted';
    }

    /** `updateSubtask` (`SubtaskUpdated`). */
    method UpdateSubtask(subtask: Option<Task>) returns (r: Outcome<ManagerError>)
      requires Valid()
      requires subtask.Some? ==> IsSubtask(subtask.value)
      modifies this
      ensures Valid()
      ensures old(Consistent()) ==> Consistent()
      ensures SubtaskUpdated(old(subtasks), old(epics), old(intervals), old(sortedTasks), subtask,
                             subtasks, epics, intervals, sortedTasks, r)
      ensures old(Consistent()) && r != Pass && r != Fail(NullReference) ==> intervals == old(intervals)
      ensures tasks == old(tasks) && sequenceId == old(sequenceId)
    {
      var subtasks', epics', held', sorted';
      subtasks', epics', held', sorted', r :=
        UpdateSubtaskIn(tasks, subtasks, epics, sequenceId, intervals, sortedTasks, subtask);
      subtasks, epics, intervals, sortedTasks := subtasks', epics', held', sorted';
    }

    /** The part of `removeSubtask` on the manager's own state
        (`SubtaskRemoved`). */
    method DropSubtask(id: Option<int>) returns (r: Outcome<ManagerError>)
      requires Valid()
      modifies this
      ensures Valid()
      ensures old(Consistent()) && (ReachesEpic(old(subtasks), old(epics), id) || r == Pass) ==> Consistent()
      ensures SubtaskRemoved(old(subtasks), old(epics), old(intervals), old(sortedTasks), id,
                             subtasks, epics, intervals, sortedTasks, r)
      ensures tasks == old(tasks) && sequenceId == old(sequenceId)
    {
      var subtasks', epics', held', sorted';
      subtasks', epics', held', sorted', r :=
        RemoveSubtaskIn(tasks, subtasks, epics, sequenceId, intervals, sortedTasks, id);
      subtasks, epics, intervals, sortedTasks := subtasks', epics', held', sorted';
    }

    /** `removeSubtask` (`SubtaskRemoved`); the history forgets the subtask
        once its epic was found. */
    method RemoveSubtask(id: Option<int>) returns (r: Outcome<ManagerError>)
      requires Valid() && history.Valid()
      modifies this, history
      ensures Valid() && history.Valid()
      ensures old(Consistent()) && (ReachesEpic(old(subtasks), old(epics), id) || r == Pass) ==> Consistent()
      ensures SubtaskRemoved(old(subtasks), old(epics), old(intervals), old(sortedTasks), id,
                             subtasks, epics, intervals, sortedTasks, r)
      ensures history.Contents == if ReachesEpic(old(subtasks), old(epics), id)
                                  then History.Erase(old(history.Contents), id.value)
                                  else old(history.Contents)
      ensures tasks == old(tasks) && sequenceId == old(sequenceId)
    {
      var reaches := ReachesEpic(subtasks, epics, id);
      r := DropSubtask(id);
      if reaches {
        history.Remove(id.value);
      }
    }

    /** The part of `clearSubtasks` on the manager's own state
        (`SubtasksCleared`). */
    method DropAllSubtasks()
      requires Valid()
      modifies this
      ensures Valid()
      ensures old(Consistent()) ==> Consistent()
      ensures SubtasksCleared(old(subtasks), old(epics), old(intervals), old(sortedTasks),
                              subtasks, epics, intervals, sortedTasks)
      ensures tasks == old(tasks) && sequenceId == old(sequenceId)
    {
      var epics' := ResetEpics(epics);
      var held, sorted := DropSubtasks(tasks, subtasks, epics, sequenceId, intervals, sortedTasks, epics');
      sortedTasks, intervals, subtasks, epics := sorted, held, map[], epics';
    }

    /** `clearSubtasks`: forgets the subtasks in the history, drops them from
        the index, gives back their buckets, and empties every epic, which
        returns to NEW (`SubtasksCleared`). */
    method ClearSubtasks()
      requires Valid() && history.Valid()
      modifies this, history
      ensures Valid() && history.Valid()
      ensures old(Consistent()) ==> Consistent()
      ensures SubtasksCleared(old(subtasks), old(epics), old(intervals), old(sortedTasks),
                              subtasks, epics, intervals, sortedTasks)
      ensures tasks == old(tasks) && sequenceId == old(sequenceId)
      ensures history.Contents == History.EraseAll(old(history.Contents), old(subtasks).Keys)
    {
      history.RemoveAll(subtasks.Keys);
      DropAllSubtasks();
    }

    /** `getEpics`: every stored epic. */
    method GetEpics() returns (r: seq<Task>, ghost order: seq<int>)
      ensures History.NoDup(order) && forall k :: k in order <==> k in epics
      ensures |r| == |order| && forall i | 0 <= i < |r| :: order[i] in epics && r[i] == epics[order[i]]
    {
      r, order := ValuesOf(epics);
    }

    method GetEpic(id: Option<int>) returns (r: Option<Task>)
      requires Valid() && history.Valid()
      modifies history
      ensures Valid() && history.Valid()
      ensures r == if id.Some? then Lookup(epics, id.value) else None
      ensures r.Some? ==> history.Contents == History.Accessed(old(history.Contents), id.value)
      ensures r.None? ==> history.Contents == old(history.Contents)
    {
      if id.None? {
        return None;
      }
      r := Lookup(epics, id.value);
      if r.Some? {
        history.Add(r.value.id);
      }
    }

    /** `createEpic`: refuses null and an id the epic map already holds;
        otherwise the epic takes the next id and is stored as given, with
        whatever subtask ids and time it carries. */
    method CreateEpic(epic: Option<Task>) returns (r: Result<int, ManagerError>)
      requires Valid()
      requires epic.Some? ==> IsEpic(epic.value)
      modifies this
      ensures Valid()
      ensures old(Consistent()) ==> Consistent()
      ensures epic.None? ==> r == Failure(BadInput)
      ensures epic.Some? && epic.value.id.Some? && epic.value.id.value in old(epics) ==> r == Failure(AlreadyExist)
      ensures r.Failure? ==> epics == old(epics) && sequenceId == old(sequenceId)
      ensures epic.Some? && !(epic.value.id.Some? && epic.value.id.value in old(epics)) ==>
                && r == Success(old(sequenceId)) && sequenceId == old(sequenceId) + 1
                && epics == old(epics)[old(sequenceId) := SetId(epic.value, old(sequenceId))]
      ensures tasks == old(tasks) && subtasks == old(subtasks)
      ensures intervals == old(intervals) && sortedTasks == old(sortedTasks)
    {
      if epic.None? {
        return Failure(BadInput);
      }
      var e := epic.value;
      if e.id.Some? && e.id.value in epics {
        return Failure(AlreadyExist);
      }
      if Consistent() {
        AddEpicKeeps(tasks, subtasks, epics, sequenceId, intervals, SetId(e, sequenceId));
      }
      var id := GenerateId();
      epics := epics[id := SetId(e, id)];
      r := Success(id);
    }

    /** `updateEpic`: refuses null and an id the epic map does not hold;
        otherwise the given epic replaces the stored one as it is: its
        subtask ids, status and time are not recomputed. */
    method UpdateEpic(epic: Option<Task>) returns (r: Outcome<ManagerError>)
      requires Valid()
      requires epic.Some? ==> IsEpic(epic.value)
      modifies this`epics
      ensures Valid()
      ensures old(Consistent()) ==> Consistent()
      ensures epic.None? ==> r == Fail(BadInput) && epics == old(epics)
      ensures epic.Some? && !(epic.value.id.Some? && epic.value.id.value in old(epics)) ==>
                r == Fail(Unspecific) && epics == old(epics)
      ensures epic.Some? && epic.value.id.Some? && epic.value.id.value in old(epics) ==>
                r == Pass && epics == old(epics)[epic.value.id.value := epic.value]
    {
      if epic.None? {
        return Fail(BadInput);
      }
      var e := epic.value;
      if !(e.id.Some? && e.id.value in epics) {
        return Fail(Unspecific);
      }
      if Consistent() {
        EpicsKeep(tasks, subtasks, epics, epics[e.id.value := e], sequenceId, intervals);
      }
      epics := epics[e.id.value := e];
      r := Pass;
    }

    /** The part of `removeEpic` on the manager's own state: the subtasks
        the epic names leave the subtask map, and the epic leaves its map. */
    method DropEpicEntry(k: int)
      requires Valid() && k in epics
      modifies this
      ensures Valid()
      ensures old(Consistent()) ==> Consistent()
      ensures epics == old(epics) - {k} && subtasks == old(subtasks) - SubtaskIds(old(epics)[k])
      ensures tasks == old(tasks) && sequenceId == old(sequenceId)
      ensures intervals == old(intervals) && sortedTasks == old(sortedTasks)
    {
      var subtasks', epics' := DropEpic(tasks, subtasks, epics, sequenceId, intervals, k);
      subtasks, epics := subtasks', epics';
    }

    /** `removeEpic`: null or an absent id changes nothing; otherwise the
        subtasks the epic names leave the subtask map and the history, and
        the epic leaves its map and the history. Those subtasks keep their
        buckets and their places in the index. */
    method RemoveEpic(id: Option<int>)
      requires Valid() && history.Valid()
      modifies this, history
      ensures Valid() && history.Valid()
      ensures old(Consistent()) ==> Consistent()
      ensures !(id.Some? && id.value in old(epics)) ==>
                epics == old(epics) && subtasks == old(subtasks) && history.Contents == old(history.Contents)
      ensures id.Some? && id.value in old(epics) ==> var k := id.value;
                && IsEpic(old(epics)[k])
                && epics == old(epics) - {k} && subtasks == old(subtasks) - SubtaskIds(old(epics)[k])
                && history.Contents == History.Erase(History.EraseAll(old(history.Contents), SubtaskIds(old(epics)[k])), k)
      ensures tasks == old(tasks) && sequenceId == old(sequenceId)
      ensures intervals == old(intervals) && sortedTasks == old(sortedTasks)
    {
      if id.None? || id.value !in epics {
        return;
      }
      var k := id.value;
      var ids := SubtaskIds(epics[k]);
      DropEpicEntry(k);
      history.RemoveAll(ids);
      history.Remove(k);
    }

    /** The part of `clearEpics` on the manager's own state: the subtasks
        give back their buckets and leave the index, and both maps are
        emptied. */
    method DropAllEpics()
      requires Valid()
      modifies this
      ensures Valid()
      ensures old(Consistent()) ==> Consistent()
      ensures epics == map[] && subtasks == map[] && tasks == old(tasks) && sequenceId == old(sequenceId)
      ensures sortedTasks == Without(old(sortedTasks), KeysOf(old(subtasks), old(subtasks).Keys))
      ensures intervals == Released(old(intervals), old(subtasks), old(subtasks).Keys)
    {
      var held, sorted := DropSubtasks(tasks, subtasks, epics, sequenceId, intervals, sortedTasks, map[]);
      sortedTasks, intervals, subtasks, epics := sorted, held, map[], map[];
    }

    /** `clearEpics`: forgets the epics and then the subtasks in the history,
        gives back the subtasks' buckets, drops them from the index, and
        empties both maps. */
    method ClearEpics()
      requires Valid() && history.Valid()
      modifies this, history
      ensures Valid() && history.Valid()
      ensures old(Consistent()) ==> Consistent()
      ensures epics == map[] && subtasks == map[] && tasks == old(tasks) && sequenceId == old(sequenceId)
      ensures sortedTasks == Without(old(sortedTasks), KeysOf(old(subtasks), old(subtasks).Keys))
      ensures intervals == Released(old(intervals), old(subtasks), old(subtasks).Keys)
      ensures history.Contents ==
                History.EraseAll(History.EraseAll(old(history.Contents), old(epics).Keys), old(subtasks).Keys)
    {
      var ids := subtasks.Keys;
      history.RemoveAll(epics.Keys);
      DropAllEpics();
      history.RemoveAll(ids);
    }

    /** `getEpicSubtasks(epicId)`: the epic's subtask ids looked up one by
        one, a missing subtask giving null; an epic id the map does not hold
        (or null) is an error. */
    method GetEpicSubtasksOf(epicId: Option<int>) returns (r: Result<seq<Option<Task>>, ManagerError>,
                                                            ghost order: seq<int>)
      requires Valid()
      ensures !(epicId.Some? && epicId.value in epics) <==> r == Failure(NotFound)
      ensures r.Success? ==> var e := epicId.value;
                && IsEpic(epics[e])
                && History.NoDup(order) && (forall k :: k in order <==> k in SubtaskIds(epics[e]))
                && |r.value| == |order| && forall i | 0 <= i < |order| :: r.value[i] == Lookup(subtasks, order[i])
    {
      if epicId.None? || epicId.value !in epics {
        return Failure(NotFound), [];
      }
      var e := epicId.value;
      var found;
      found, order := LookupEach(SubtaskIds(epics[e]), subtasks);
      r := Success(found);
    }
  }
}
