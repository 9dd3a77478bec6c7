/** The task record of `task/Task.java`, and the parts of it that the
    subclasses `Subtask` and `Epic` add.

    A Java object is modelled by its value: the record below holds every field
    of a `Task`, a `Subtask` or an `Epic`, and `kind` says which of the three
    classes the object belongs to (its runtime class, which `equals` compares),
    while `taskType` is the separate `TaskType` tag (Java's `type` field) that the
    constructors set. */
module Tasks {
  import opened Wrappers

  datatype Status = NEW | IN_PROGRESS | DONE

  datatype TaskType = TASK | SUBTASK | EPIC

  /** A `LocalDateTime`, counted in minutes, or `LocalDateTime.MAX`, which the
      source uses as the sentinel "no start time". */
  datatype Time = At(minute: int) | Max

  /** The runtime class of the object, with the fields only that class has. */
  datatype Kind =
    | PlainTask
    | SubtaskOf(epicId: int)
    | EpicOf(subtaskIds: set<int>, endTime: Time)

  datatype TaskRecord = TaskRecord(
    id: Option<int>,              // `Long id`, null until a manager assigns one
    taskType: TaskType,
    name: Option<string>,
    description: Option<string>,
    status: Status,
    duration: int,                // minutes
    startTime: Time,
    kind: Kind)

  /** The combinations of class and tag that the constructors can produce:
      `Subtask`'s private no-argument constructor leaves the tag at TASK. */
  predicate WellTyped(r: TaskRecord) {
    match r.kind
    case PlainTask => r.taskType == TASK
    case SubtaskOf(_) => r.taskType == SUBTASK || r.taskType == TASK
    case EpicOf(_, _) => r.taskType == EPIC
  }

  type Task = r: TaskRecord | WellTyped(r)
    witness TaskRecord(None, TASK, None, None, NEW, 0, Max, PlainTask)

  const DEFAULT_DURATION: int := 0
  const DEFAULT_START_TIME: Time := Max

  /** `new Task()`. */
  function NewTask(): (t: Task)
    ensures t.taskType == TASK && t.kind == PlainTask
    ensures t.status == NEW && t.duration == DEFAULT_DURATION && t.startTime == DEFAULT_START_TIME
    ensures t.id.None? && t.name.None? && t.description.None?
  {
    TaskRecord(None, TASK, None, None, NEW, DEFAULT_DURATION, DEFAULT_START_TIME, PlainTask)
  }

  // The fluent setters: each assigns one field and hands back the object.

  function SetId(t: Task, id: int): Task { t.(id := Some(id)) }

  function SetName(t: Task, name: Option<string>): Task { t.(name := name) }

  function SetDescription(t: Task, description: Option<string>): Task { t.(description := description) }

  function SetStatus(t: Task, status: Status): Task { t.(status := status) }

  function SetDuration(t: Task, duration: int): Task { t.(duration := duration) }

  function SetStartTime(t: Task, startTime: Time): Task { t.(startTime := startTime) }

  /** `LocalDateTime.plusMinutes`. The sentinel is never shifted on the paths
      the source guards; the model keeps it fixed. */
  function PlusMinutes(t: Time, minutes: int): Time {
    match t
    case At(m) => At(m + minutes)
    case Max => Max
  }

  /** The order of `LocalDateTime.compareTo`: the sentinel is the greatest. */
  predicate TimeBefore(a: Time, b: Time) {
    match (a, b)
    case (At(x), At(y)) => x < y
    case (At(_), Max) => true
    case (Max, _) => false
  }

  /** `Task.getEndTime`: the start shifted by the duration. */
  function EndTime(t: Task): (r: Time)
    ensures t.startTime.At? ==> r == At(t.startTime.minute + t.duration)
    ensures t.startTime.At? && t.duration >= 0 ==> !TimeBefore(r, t.startTime)
    ensures t.duration == 0 ==> r == t.startTime
  {
    PlusMinutes(t.startTime, t.duration)
  }

  /** The runtime classes of two objects agree (`getClass() == o.getClass()`). */
  predicate SameClass(a: Task, b: Task) {
    match (a.kind, b.kind)
    case (PlainTask, PlainTask) => true
    case (SubtaskOf(_), SubtaskOf(_)) => true
    case (EpicOf(_, _), EpicOf(_, _)) => true
    case _ => false
  }

  /** `Task.equals`: same class and `Objects.equals` on the ids. */
  predicate Equals(a: Task, b: Task) {
    SameClass(a, b) && a.id == b.id
  }

  function Ordinal(t: TaskType): int {
    match t
    case TASK => 0
    case SUBTASK => 1
    case EPIC => 2
  }

  /** `Task.hashCode`, `Objects.hash(id, type)` = 31 * (31 + hash(id)) + hash(type),
      with the enum's identity hash taken to be its ordinal and `Long.hashCode`
      taken to be the value. */
  function HashCode(t: Task): int {
    31 * (31 + (if t.id.Some? then t.id.value else 0)) + Ordinal(t.taskType)
  }

  /** `equals` is an equivalence relation that ignores name, status and time. */
  lemma EqualsIsEquivalence(a: Task, b: Task, c: Task)
    ensures Equals(a, a)
    ensures Equals(a, b) ==> Equals(b, a)
    ensures Equals(a, b) && Equals(b, c) ==> Equals(a, c)
    ensures Equals(a, b) <==> Equals(a.(name := b.name, description := b.description, status := b.status,
                                        duration := b.duration, startTime := b.startTime), b)
  {
  }

  /** `hashCode` is determined by id and tag, and two equal objects hash alike
      whenever their tags agree. */
  lemma HashCodeFollowsIdAndType(a: Task, b: Task)
    ensures a.id == b.id && a.taskType == b.taskType ==> HashCode(a) == HashCode(b)
    ensures Equals(a, b) && a.taskType == b.taskType ==> HashCode(a) == HashCode(b)
  {
  }

  /** Every setter but `setId` keeps the object equal to itself and its hash
      unchanged; `setId` keeps it equal exactly when the id is unchanged. */
  lemma SettersKeepIdentity(t: Task, name: Option<string>, description: Option<string>,
                            status: Status, duration: int, startTime: Time, id: int)
    ensures Equals(SetName(t, name), t) && HashCode(SetName(t, name)) == HashCode(t)
    ensures Equals(SetDescription(t, description), t) && HashCode(SetDescription(t, description)) == HashCode(t)
    ensures Equals(SetStatus(t, status), t) && HashCode(SetStatus(t, status)) == HashCode(t)
    ensures Equals(SetDuration(t, duration), t) && HashCode(SetDuration(t, duration)) == HashCode(t)
    ensures Equals(SetStartTime(t, startTime), t) && HashCode(SetStartTime(t, startTime)) == HashCode(t)
    ensures Equals(SetId(t, id), t) <==> t.id == Some(id)
  {
  }

  /** The setters touch disjoint fields, so they commute, and each reads back
      what it wrote. */
  lemma SettersCommute(t: Task, name: Option<string>, status: Status, duration: int, startTime: Time, id: int)
    ensures SetName(SetStatus(t, status), name) == SetStatus(SetName(t, name), status)
    ensures SetDuration(SetStartTime(t, startTime), duration) == SetStartTime(SetDuration(t, duration), startTime)
    ensures SetId(SetName(t, name), id) == SetName(SetId(t, id), name)
    ensures SetId(t, id).id == Some(id) && SetName(t, name).name == name && SetStatus(t, status).status == status
    ensures SetDuration(t, duration).duration == duration && SetStartTime(t, startTime).startTime == startTime
  {
  }
}
