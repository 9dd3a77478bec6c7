/** `manager/FileBackedTasksManager.java`: a manager read back from the
    lines of its file. Reading and writing the file itself are not
    modelled. */
module FileBacked {
  import opened Wrappers
  import opened Tasks
  import opened Codec
  import opened ManagerState
  import opened Manager
  import opened Loading
  import History

  /** `createTaskFromString`: the record goes into one map; no bucket is
      claimed, the priority index and the counter are left alone. */
  method CreateTaskFromString(m: TaskManager, how: Splitting, line: string) returns (r: Outcome<DecodeError>)
    requires m.Valid()
    modifies m
    ensures m.Valid()
    ensures var t := ReadRecord(how, line);
      && (t.Failure? ==> r == Fail(t.error) && m.tasks == old(m.tasks) && m.subtasks == old(m.subtasks) && m.epics == old(m.epics))
      && (t.Success? ==> r == Pass && Store(m.tasks, m.subtasks, m.epics) == Put(old(Store(m.tasks, m.subtasks, m.epics)), t.value))
    ensures m.intervals == old(m.intervals) && m.sortedTasks == old(m.sortedTasks) && m.sequenceId == old(m.sequenceId)
  {
    var t := ReadRecord(how, line);
    if t.Failure? {
      return Fail(t.error);
    }
    PutRecord(m, t.value);
    r := Pass;
  }

  /** The map write of `createTaskFromString`. */
  method PutRecord(m: TaskManager, t: Task)
    requires m.Valid() && t.id.Some?
    modifies m
    ensures m.Valid()
    ensures Store(m.tasks, m.subtasks, m.epics) == Put(old(Store(m.tasks, m.subtasks, m.epics)), t)
    ensures m.intervals == old(m.intervals) && m.sortedTasks == old(m.sortedTasks) && m.sequenceId == old(m.sequenceId)
  {
    var s := Put(Store(m.tasks, m.subtasks, m.epics), t);
    m.tasks, m.subtasks, m.epics := s.tasks, s.subtasks, s.epics;
  }

  /** The history replay of `loadFromFile`: each id is looked up and the
      task found, if any, is added. */
  method ReplayHistory(m: TaskManager, ids: seq<int>)
    requires m.Valid() && m.history.Valid()
    modifies m.history
    ensures m.history.Valid()
    ensures m.history.Contents == Restore(old(m.history.Contents), ids, Store(m.tasks, m.subtasks, m.epics))
  {
    var s := Store(m.tasks, m.subtasks, m.epics);
    var i := 0;
    while i < |ids|
      invariant 0 <= i <= |ids|
      invariant m.history.Valid()
      invariant m.history.Contents == Restore(old(m.history.Contents), ids[..i], s)
    {
      var found := GetTaskUniversal(s, ids[i]);
      m.history.Add(if found.Some? then found.value.id else None);
      assert ids[..i + 1][..i] == ids[..i];
      i := i + 1;
    }
    assert ids[..i] == ids;
  }

  /** The state of the reading loop at line `i`: before the first blank
      line, the maps hold the records read so far; after it, all of them,
      and only blank lines have been seen since. */
  ghost predicate Reading(how: Splitting, body: seq<string>, i: nat, nextLineIsHistory: bool, st: Store) {
    if nextLineIsHistory then PastRecords(how, body, i, st) else InRecords(how, body, i, st)
  }

  /** Line `i` is a record line or the first blank one, and the maps hold
      the records before it. */
  ghost predicate InRecords(how: Splitting, body: seq<string>, i: nat, st: Store) {
    i <= FirstBlank(body) && i <= |body| && LoadRecords(how, body[..i]) == Success(st)
  }

  /** The first blank line is behind line `i`, the maps hold all the
      records, and only blank lines have been seen since. */
  ghost predicate PastRecords(how: Splitting, body: seq<string>, i: nat, st: Store) {
    var b := FirstBlank(body);
    && b < i <= |body| && LoadRecords(how, RecordLines(body)) == Success(st)
    && forall j | b <= j < i :: body[j] == ""
  }

  lemma {:induction false} FirstBlankAtMost(body: seq<string>, i: nat)
    requires i < |body| && body[i] == ""
    ensures FirstBlank(body) <= i
  {
    if body[0] != "" {
      FirstBlankAtMost(body[1..], i - 1);
    }
  }

  /** The first blank line ends the records: all of them have been read. */
  lemma ReadingFirstBlank(how: Splitting, body: seq<string>, i: nat, st: Store)
    requires InRecords(how, body, i, st) && i < |body| && body[i] == ""
    ensures PastRecords(how, body, i + 1, st)
  {
    FirstBlankAt(body, i);
  }

  /** A blank line at `i` with none before it is the first blank line, and
      the record lines are those before it. */
  lemma FirstBlankAt(body: seq<string>, i: nat)
    requires i <= FirstBlank(body) && i < |body| && body[i] == ""
    ensures FirstBlank(body) == i && RecordLines(body) == body[..i]
    ensures forall j | FirstBlank(body) <= j < i + 1 :: body[j] == ""
  {
    var b := FirstBlank(body);
    FirstBlankAtMost(body, i);
    forall j | b <= j < i + 1
      ensures body[j] == ""
    {
      assert j == i;
    }
  }

  /** A further blank line changes nothing. */
  lemma ReadingMoreBlank(how: Splitting, body: seq<string>, i: nat, st: Store)
    requires PastRecords(how, body, i, st) && i < |body| && body[i] == ""
    ensures PastRecords(how, body, i + 1, st)
  {
  }

  /** A non-empty line before any blank one is the next record line: read,
      it extends the maps; unreadable, it ends the load. */
  lemma ReadingRecord(how: Splitting, body: seq<string>, i: nat, st: Store)
    requires InRecords(how, body, i, st) && i < |body| && body[i] != ""
    ensures var t := ReadRecord(how, body[i]);
      && (t.Success? ==> InRecords(how, body, i + 1, Put(st, t.value)))
      && (t.Failure? ==> LoadRecords(how, RecordLines(body)) == Failure(Unreadable(t.error)))
  {
    var b := FirstBlank(body);
    assert i != b;
    assert body[..b][..i + 1] == body[..i + 1];
    assert body[..i + 1][..i] == body[..i];
    if ReadRecord(how, body[i]).Failure? {
      LoadRecordsFailureSticks(how, RecordLines(body), i + 1);
    }
  }

  lemma ReadingHistory(how: Splitting, body: seq<string>, i: nat, st: Store)
    requires PastRecords(how, body, i, st) && i < |body| && body[i] != ""
    ensures HistoryLine(body) == Some(body[i]) && LoadRecords(how, RecordLines(body)) == Success(st)
  {
    HistoryLineAt(body, i);
  }

  lemma ReadingEnd(how: Splitting, body: seq<string>, nextLineIsHistory: bool, st: Store)
    requires Reading(how, body, |body|, nextLineIsHistory, st)
    ensures HistoryLine(body) == None && LoadRecords(how, RecordLines(body)) == Success(st)
  {
    if !nextLineIsHistory {
      assert body[..|body|] == RecordLines(body) == body;
    }
    NoHistoryLine(body);
  }

  /** The reading loop of `loadFromFile` on a fresh manager: records up to
      the first blank line, each cut into columns as `how` says, then the
      first non-empty line as the history. */
  method ReadLines(m: TaskManager, how: Splitting, body: seq<string>) returns (r: Outcome<LoadError>)
    requires m.Valid() && m.history.Valid() && m.history.Contents == []
    requires m.tasks == map[] && m.subtasks == map[] && m.epics == map[]
    modifies m, m.history
    ensures m.Valid() && m.history.Valid()
    ensures m.intervals == old(m.intervals) && m.sortedTasks == old(m.sortedTasks) && m.sequenceId == old(m.sequenceId)
    ensures var s := LoadRecords(how, RecordLines(body));
      var line := HistoryLine(body);
      var ids := if line.Some? then HistoryFromString(line.value) else Some([]);
      && (s.Failure? ==> r == Fail(s.error))
      && (s.Success? && ids.None? ==> r == Fail(UnreadableHistory))
      && (s.Success? && ids.Some? ==>
            r == Pass && Store(m.tasks, m.subtasks, m.epics) == s.value && m.history.Contents == Restore([], ids.value, s.value))
  {
    var i := 0;
    var nextLineIsHistory := false;
    while i < |body|
      invariant m.Valid() && m.history.Valid() && m.history.Contents == []
      invariant m.intervals == old(m.intervals) && m.sortedTasks == old(m.sortedTasks) && m.sequenceId == old(m.sequenceId)
      invariant Reading(how, body, i, nextLineIsHistory, Store(m.tasks, m.subtasks, m.epics))
    {
      var line := body[i];
      if line == "" {
        if nextLineIsHistory {
          ReadingMoreBlank(how, body, i, Store(m.tasks, m.subtasks, m.epics));
        } else {
          ReadingFirstBlank(how, body, i, Store(m.tasks, m.subtasks, m.epics));
        }
        nextLineIsHistory := true;
        i := i + 1;
        continue;
      }
      if nextLineIsHistory {
        ReadingHistory(how, body, i, Store(m.tasks, m.subtasks, m.epics));
        var ids := HistoryFromString(line);
        if ids.None? {
          return Fail(UnreadableHistory);
        }
        ReplayHistory(m, ids.value);
        return Pass;
      }
      ReadingRecord(how, body, i, Store(m.tasks, m.subtasks, m.epics));
      var o := CreateTaskFromString(m, how, line);
      if o.Fail? {
        return Fail(Unreadable(o.error));
      }
      i := i + 1;
    }
    ReadingEnd(how, body, nextLineIsHistory, Store(m.tasks, m.subtasks, m.epics));
    r := Pass;
  }

  /** `loadFromFile` over the lines of a file, with record lines cut as
      `how` says (`AsWritten` is the source): the manager it returns, or the
      exception it throws, is the one `Load` describes. The manager claims
      no bucket, has an empty priority index and a counter at 0. */
  method LoadFromLines(how: Splitting, lines: seq<string>) returns (r: Result<TaskManager, LoadError>)
    ensures r.Failure? <==> Load(how, lines).Failure?
    ensures r.Failure? ==> r.error == Load(how, lines).error
    ensures r.Success? ==>
      && fresh(r.value) && fresh(r.value.history)
      && r.value.Valid() && r.value.history.Valid()
      && r.value.intervals == {} && r.value.sortedTasks == [] && r.value.sequenceId == 0
      && Load(how, lines).value == (Store(r.value.tasks, r.value.subtasks, r.value.epics), r.value.history.Contents)
  {
    var m := new TaskManager();
    var o := ReadLines(m, how, Body(lines));
    if o.Fail? {
      return Failure(o.error);
    }
    var linked := LinkSubtasks(m.subtasks, m.epics);
    if linked.Failure? {
      return Failure(linked.error);
    }
    m.epics := linked.value;
    r := Success(m);
  }
}
