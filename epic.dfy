/** `task/Epic.java`: a task that owns a set of subtask ids and whose time is
    derived from them. Its time getters refuse to answer while that time is
    undefined. */
module Epics {
  import opened Wrappers
  import opened Tasks

  /** The two messages of `TaskDataUndefinedException` that the getters throw. */
  datatype Undefined =
    | EmptySubtaskList   // "... the subtask list is empty"
    | NoTimeIntervals    // "... the subtasks have no time intervals"

  const DEFAULT_END_TIME: Time := Max

  predicate IsEpic(t: Task) {
    t.kind.EpicOf?
  }

  function SubtaskIds(e: Task): set<int>
    requires IsEpic(e)
  {
    e.kind.subtaskIds
  }

  /** `new Epic()`: tag EPIC, no subtasks, the default duration and the
      sentinel for both start and end; status NEW comes from `Task()`. */
  function NewEpic(): (e: Task)
    ensures IsEpic(e) && e.taskType == EPIC && SubtaskIds(e) == {}
    ensures e.duration == DEFAULT_DURATION && e.startTime == DEFAULT_START_TIME && e.kind.endTime == DEFAULT_END_TIME
    ensures e.status == NEW && e.id.None?
  {
    NewTask().(taskType := EPIC, kind := EpicOf({}, DEFAULT_END_TIME))
  }

  /** `addSubtaskId`: adds to the set, so adding twice is adding once. */
  function AddSubtaskId(e: Task, id: int): (r: Task)
    requires IsEpic(e)
    ensures IsEpic(r) && SubtaskIds(r) == SubtaskIds(e) + {id}
    ensures r == e.(kind := r.kind) && r.kind.endTime == e.kind.endTime
    ensures id in SubtaskIds(e) ==> r == e
  {
    e.(kind := e.kind.(subtaskIds := e.kind.subtaskIds + {id}))
  }

  /** `removeSubtaskId`: removing an absent id changes nothing. */
  function RemoveSubtaskId(e: Task, id: int): (r: Task)
    requires IsEpic(e)
    ensures IsEpic(r) && SubtaskIds(r) == SubtaskIds(e) - {id}
    ensures r == e.(kind := r.kind) && r.kind.endTime == e.kind.endTime
    ensures id !in SubtaskIds(e) ==> r == e
  {
    e.(kind := e.kind.(subtaskIds := e.kind.subtaskIds - {id}))
  }

  /** `clearSubtaskIds`. */
  function ClearSubtaskIds(e: Task): (r: Task)
    requires IsEpic(e)
    ensures IsEpic(r) && SubtaskIds(r) == {}
    ensures r == e.(kind := r.kind) && r.kind.endTime == e.kind.endTime
  {
    e.(kind := e.kind.(subtaskIds := {}))
  }

  /** `setEndTime`. */
  function SetEndTime(e: Task, endTime: Time): (r: Task)
    requires IsEpic(e)
    ensures IsEpic(r) && SubtaskIds(r) == SubtaskIds(e) && r.kind.endTime == endTime
    ensures r == e.(kind := r.kind)
  {
    e.(kind := e.kind.(endTime := endTime))
  }

  /** The set operations undo each other. */
  lemma {:induction false} SubtaskIdSetLaws(e: Task, id: int)
    requires IsEpic(e)
    ensures AddSubtaskId(AddSubtaskId(e, id), id) == AddSubtaskId(e, id)
    ensures RemoveSubtaskId(AddSubtaskId(e, id), id) == RemoveSubtaskId(e, id)
    ensures id !in SubtaskIds(e) ==> RemoveSubtaskId(AddSubtaskId(e, id), id) == e
    ensures id in SubtaskIds(e) ==> AddSubtaskId(RemoveSubtaskId(e, id), id) == e
    ensures ClearSubtaskIds(AddSubtaskId(e, id)) == ClearSubtaskIds(e)
  {
    var k := e.kind;
    assert id !in k.subtaskIds ==> (k.subtaskIds + {id}) - {id} == k.subtaskIds;
    assert id in k.subtaskIds ==> (k.subtaskIds - {id}) + {id} == k.subtaskIds;
  }

  /** `hasDefaultTime`. */
  predicate HasDefaultTime(e: Task) {
    e.duration == DEFAULT_DURATION || e.startTime == DEFAULT_START_TIME
  }

  /** `Epic.getDuration`: refuses only while the time is the default and
      there are no subtasks. */
  function GetDuration(e: Task): (r: Result<int, Undefined>)
    requires IsEpic(e)
    ensures r.Failure? <==> HasDefaultTime(e) && SubtaskIds(e) == {}
    ensures r.Failure? ==> r.error == EmptySubtaskList
    ensures r.Success? ==> r.value == e.duration
  {
    if !HasDefaultTime(e) then Success(e.duration)
    else if SubtaskIds(e) == {} then Failure(EmptySubtaskList)
    else Success(e.duration)
  }

  /** `Epic.getStartTime`: answers exactly when the start is a real time and
      either the duration is set or there are subtasks; it never answers with
      the sentinel, and says "empty list" exactly when there are no subtasks. */
  function GetStartTime(e: Task): (r: Result<Time, Undefined>)
    requires IsEpic(e)
    ensures r.Success? <==> e.startTime.At? && (e.duration != DEFAULT_DURATION || SubtaskIds(e) != {})
    ensures r.Success? ==> r.value == e.startTime && r.value.At?
    ensures r.Failure? ==> (r.error == EmptySubtaskList <==> SubtaskIds(e) == {})
  {
    if !HasDefaultTime(e) then Success(e.startTime)
    else if SubtaskIds(e) == {} then Failure(EmptySubtaskList)
    else if e.startTime == DEFAULT_START_TIME then Failure(NoTimeIntervals)
    else Success(e.startTime)
  }

  /** `Epic.getEndTime`: the same three-way guard, with the last test made on
      the stored end rather than the start. With a set time it answers with
      the stored end, even the sentinel. */
  function GetEndTime(e: Task): (r: Result<Time, Undefined>)
    requires IsEpic(e)
    ensures r.Success? <==> !HasDefaultTime(e) || (SubtaskIds(e) != {} && e.kind.endTime.At?)
    ensures r.Success? ==> r.value == e.kind.endTime
    ensures r.Failure? ==> (r.error == EmptySubtaskList <==> SubtaskIds(e) == {})
  {
    if !HasDefaultTime(e) then Success(e.kind.endTime)
    else if SubtaskIds(e) == {} then Failure(EmptySubtaskList)
    else if e.kind.endTime == DEFAULT_END_TIME then Failure(NoTimeIntervals)
    else Success(e.kind.endTime)
  }

  /** A new epic has no time to report: all three getters say "empty list". */
  lemma NewEpicHasNoTime()
    ensures GetDuration(NewEpic()) == Failure(EmptySubtaskList)
    ensures GetStartTime(NewEpic()) == Failure(EmptySubtaskList)
    ensures GetEndTime(NewEpic()) == Failure(EmptySubtaskList)
  {
  }

  /** `getDuration` as called on any task: the epic override, or the field. */
  function DurationOf(t: Task): (r: Result<int, Undefined>)
    ensures r.Success? ==> r.value == t.duration
    ensures !IsEpic(t) ==> r.Success?
  {
    if IsEpic(t) then GetDuration(t) else Success(t.duration)
  }

  /** `getStartTime` as called on any task. */
  function StartTimeOf(t: Task): (r: Result<Time, Undefined>)
    ensures r.Success? ==> r.value == t.startTime
    ensures !IsEpic(t) ==> r.Success?
  {
    if IsEpic(t) then GetStartTime(t) else Success(t.startTime)
  }
}
