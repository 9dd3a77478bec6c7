/** `task/Subtask.java`: a task that names the epic owning it. */
module Subtasks {
  import opened Wrappers
  import opened Tasks

  /** `new Subtask(epicId)`: the `Task` defaults, tagged SUBTASK, owned by `epicId`. */
  function NewSubtask(epicId: int): (s: Task)
    ensures s.kind == SubtaskOf(epicId) && s.taskType == SUBTASK
    ensures s.status == NEW && s.duration == DEFAULT_DURATION && s.startTime == DEFAULT_START_TIME
    ensures s.id.None? && s.name.None? && s.description.None?
  {
    NewTask().(taskType := SUBTASK, kind := SubtaskOf(epicId))
  }

  /** The private no-argument constructor (used by deserialisation): `Task()`
      has set the tag to TASK and nothing sets it again; `epicId` keeps the
      default 0. */
  function NewSubtaskNoArg(): (s: Task)
    ensures s.kind == SubtaskOf(0) && s.taskType == TASK
    ensures s.status == NEW && s.duration == DEFAULT_DURATION && s.startTime == DEFAULT_START_TIME
  {
    NewTask().(kind := SubtaskOf(0))
  }

  predicate IsSubtask(t: Task) {
    t.kind.SubtaskOf?
  }

  /** `Subtask.getEpicId`. */
  function GetEpicId(s: Task): int
    requires IsSubtask(s)
  {
    s.kind.epicId
  }

  /** The getter returns the constructor's argument, and no setter can change
      it: `epicId` has no setter of its own, and those inherited from `Task`
      leave it alone. */
  lemma {:induction false} EpicIdIsFixed(epicId: int, name: Option<string>, description: Option<string>,
                                         status: Status, duration: int, startTime: Time, id: int)
    ensures GetEpicId(NewSubtask(epicId)) == epicId
    ensures var s := NewSubtask(epicId);
      var s' := SetStartTime(SetDuration(SetStatus(SetDescription(SetName(SetId(s, id), name), description), status), duration), startTime);
      IsSubtask(s') && GetEpicId(s') == epicId && s'.taskType == SUBTASK
  {
  }

  /** Equality of subtasks compares ids only: two subtasks of different epics
      with one id are equal. */
  lemma SubtaskEqualityIgnoresEpic(a: int, b: int, id: int)
    ensures Equals(SetId(NewSubtask(a), id), SetId(NewSubtask(b), id))
    ensures !Equals(SetId(NewSubtask(a), id), SetId(NewTask(), id))
  {
  }
}
