/** The lines `save` of `manager/FileBackedTasksManager.java` writes, and
    what `loadFromFile` makes of them. */
module Saving {
  import opened Wrappers
  import opened Tasks
  import opened Subtasks
  import opened Epics
  import opened Text
  import opened Codec
  import opened ManagerState
  import opened Loading
  import History

  /** The record lines of `records`, one per record, in order. */
  function Texts(records: seq<Task>): (r: seq<string>)
    ensures |r| == |records|
    ensures forall i | 0 <= i < |r| :: r[i] == TaskToString(records[i])
  {
    seq(|records|, i requires 0 <= i < |records| => TaskToString(records[i]))
  }

  /** The lines of the file `save` writes: the header, one line per record
      (`getTasks`, then `getSubtasks`, then `getEpics`), an empty line and,
      when the history is not empty, the history line. */
  function SaveLines(records: seq<Task>, h: seq<int>): seq<string> {
    [HEADER] + SavedBody(records, h)
  }

  /** The lines after the header. */
  function SavedBody(records: seq<Task>, h: seq<int>): seq<string> {
    Texts(records) + [""] + (if h == [] then [] else [HistoryToString(h)])
  }

  /** The values of `m` in the order `order` lists their keys: what
      `getTasks` and its like return. */
  function ValuesIn(m: map<int, Task>, order: seq<int>): (r: seq<Task>)
    requires forall i | 0 <= i < |order| :: order[i] in m
    ensures |r| == |order| && forall i | 0 <= i < |r| :: r[i] == m[order[i]]
  {
    seq(|order|, i requires 0 <= i < |order| => m[order[i]])
  }

  /** `order` lists the keys of `m`, and only those. */
  predicate Lists(order: seq<int>, m: map<int, Task>) {
    (forall i | 0 <= i < |order| :: order[i] in m) && (forall k | k in m :: k in order)
  }

  /** An epic as it is after the load: read back from its line, then given
      back the ids of the subtasks that name it. */
  function Relinked(e: Task): (r: Task)
    requires IsEpic(e)
    ensures IsEpic(r) && SubtaskIds(r) == SubtaskIds(e)
  {
    WithSubtaskIds(Reloaded(e), SubtaskIds(e))
  }

  /** A manager state that `save` can write and `loadFromFile` read back:
      every record fits the format, the tasks map holds plain tasks, every
      subtask's epic is there and every epic lists exactly the subtasks
      that name it. */
  ghost predicate Savable(s: Store) {
    && StoreValid(s)
    && (forall k | k in s.tasks :: Writable(s.tasks[k]) && s.tasks[k].kind == PlainTask && s.tasks[k].taskType == TASK)
    && (forall k | k in s.subtasks :: Writable(s.subtasks[k]))
    && (forall k | k in s.epics :: Writable(s.epics[k]))
    && Linkable(s.subtasks, s.epics)
    && (forall e | e in s.epics :: SubtaskIds(s.epics[e]) == MembersOf(s.subtasks, s.subtasks.Keys, e))
  }

  /** The records read into `s` one after the other, as read back from their
      lines (a record without an id is never written). */
  function PutAll(s: Store, records: seq<Task>): Store {
    if records == [] then s
    else
      var prev := PutAll(s, records[..|records| - 1]);
      var t := Reloaded(records[|records| - 1]);
      if t.id.Some? then Put(prev, t) else prev
  }

  lemma {:induction false} PutAllConcat(s: Store, a: seq<Task>, b: seq<Task>)
    ensures PutAll(s, a + b) == PutAll(PutAll(s, a), b)
  {
    if b == [] {
      assert a + b == a;
    } else {
      assert (a + b)[..|a + b| - 1] == a + b[..|b| - 1];
      PutAllConcat(s, a, b[..|b| - 1]);
    }
  }

  /** Some record of `records` loses its empty tail when written. */
  predicate SomeLosesTail(records: seq<Task>) {
    exists i | 0 <= i < |records| :: LosesEmptyTail(records[i])
  }

  lemma SomeLosesTailLast(records: seq<Task>)
    requires records != []
    ensures var n := |records|;
      SomeLosesTail(records) <==> SomeLosesTail(records[..n - 1]) || LosesEmptyTail(records[n - 1])
  {
    var n := |records|;
    if SomeLosesTail(records[..n - 1]) {
      var i :| 0 <= i < n - 1 && LosesEmptyTail(records[..n - 1][i]);
      assert records[i] == records[..n - 1][i];
    }
  }

  /** Reading the lines of writable records gives the maps `PutAll` builds,
      except that the reading as written fails at the description column of
      the first record that loses its empty tail. */
  lemma {:induction false} LoadTexts(how: Splitting, records: seq<Task>)
    requires forall i | 0 <= i < |records| :: Writable(records[i])
    ensures LoadRecords(how, Texts(records)) ==
      if how == AsWritten && SomeLosesTail(records) then Failure(Unreadable(MissingColumn(4)))
      else Success(PutAll(EMPTY, records))
  {
    if records != [] {
      var n := |records|;
      assert Texts(records)[..n - 1] == Texts(records[..n - 1]);
      LoadTexts(how, records[..n - 1]);
      ReadWritten(how, records[n - 1]);
      SomeLosesTailLast(records);
    }
  }

  /** One map of the store, chosen by type, with more entries. */
  function Fill(s: Store, ty: TaskType, got: map<int, Task>): Store {
    match ty
    case TASK => s.(tasks := s.tasks + got)
    case SUBTASK => s.(subtasks := s.subtasks + got)
    case EPIC => s.(epics := s.epics + got)
  }

  /** The entries of `m` that `order` lists, as read back. */
  function Reloads(m: map<int, Task>, order: seq<int>): map<int, Task> {
    map k | k in m && k in order :: Reloaded(m[k])
  }

  lemma ReloadsStep(m: map<int, Task>, order: seq<int>, k: int)
    requires k in m
    ensures Reloads(m, order + [k]) == Reloads(m, order)[k := Reloaded(m[k])]
  {
    assert forall j :: j in order + [k] <==> j in order || j == k;
  }

  lemma FillPut(s: Store, ty: TaskType, got: map<int, Task>, t: Task)
    requires t.id.Some? && t.taskType == ty
    ensures Put(Fill(s, ty, got), t) == Fill(s, ty, got[t.id.value := t])
  {
    var k := t.id.value;
    match ty
    case TASK => assert (s.tasks + got)[k := t] == s.tasks + got[k := t];
    case SUBTASK => assert (s.subtasks + got)[k := t] == s.subtasks + got[k := t];
    case EPIC => assert (s.epics + got)[k := t] == s.epics + got[k := t];
  }

  /** Reading the listed values of one map, all of one type, fills that
      map of the store with them as read back. */
  lemma {:induction false} PutListing(s: Store, m: map<int, Task>, order: seq<int>, ty: TaskType)
    requires forall i | 0 <= i < |order| :: order[i] in m
    requires forall k | k in m :: m[k].id == Some(k) && m[k].taskType == ty
    ensures PutAll(s, ValuesIn(m, order)) == Fill(s, ty, Reloads(m, order))
  {
    var n := |order|;
    if n == 0 {
      assert Reloads(m, order) == map[];
    } else {
      var k := order[n - 1];
      assert ValuesIn(m, order)[..n - 1] == ValuesIn(m, order[..n - 1]);
      PutListing(s, m, order[..n - 1], ty);
      assert order[..n - 1] + [k] == order;
      ReloadsStep(m, order[..n - 1], k);
      FillPut(s, ty, Reloads(m, order[..n - 1]), Reloaded(m[k]));
    }
  }

  /** Reading back replays a history that names only stored ids, each once,
      into itself. */
  lemma {:induction false} RestoreSaved(h: seq<int>, s: Store)
    requires History.NoDup(h)
    requires forall i | 0 <= i < |h| :: GetTaskUniversal(s, h[i]).Some?
    ensures Restore([], h, s) == h
  {
    if h != [] {
      var n := |h|;
      var p, x := h[..n - 1], h[n - 1];
      forall i, j | 0 <= i < j < |p|
        ensures p[i] != p[j]
      {
        assert p[i] == h[i] && p[j] == h[j];
      }
      forall i | 0 <= i < |p|
        ensures GetTaskUniversal(s, p[i]).Some? && p[i] != x
      {
        assert p[i] == h[i];
      }
      RestoreSaved(p, s);
      assert Restore([], h, s) == History.Accessed(p, x);
      assert p + [x] == h;
    }
  }

  lemma {:induction false} FirstBlankAt(body: seq<string>, b: nat)
    requires b < |body| && body[b] == "" && forall j | 0 <= j < b :: body[j] != ""
    ensures FirstBlank(body) == b
  {
    if b > 0 {
      FirstBlankAt(body[1..], b - 1);
    }
  }

  /** The body of a file of non-empty record lines, a blank line and a tail
      of at most one non-empty line: the records, then that line. */
  lemma Layout(texts: seq<string>, tail: seq<string>)
    requires forall i | 0 <= i < |texts| :: texts[i] != ""
    requires |tail| <= 1 && forall i | 0 <= i < |tail| :: tail[i] != ""
    ensures var body := texts + [""] + tail;
      && RecordLines(body) == texts
      && HistoryLine(body) == (if tail == [] then None else Some(tail[0]))
  {
    var body := texts + [""] + tail;
    FirstBlankAt(body, |texts|);
    var rest := body[|texts| + 1..];
    assert rest == tail;
    FirstFilledAt(rest, 0);
  }

  /** A record line is never empty: it holds the separators. */
  lemma TextFilled(t: Task)
    ensures TaskToString(t) != ""
  {
    JoinHasSeparator(Columns(t), ',');
  }

  lemma TextsFilled(records: seq<Task>)
    ensures forall i | 0 <= i < |records| :: Texts(records)[i] != ""
  {
    forall i | 0 <= i < |records| ensures Texts(records)[i] != "" {
      TextFilled(records[i]);
    }
  }

  /** The listed values of a map of writable records are writable. */
  lemma ListedWritable(m: map<int, Task>, order: seq<int>)
    requires forall i | 0 <= i < |order| :: order[i] in m
    requires forall k | k in m :: Writable(m[k])
    ensures forall i | 0 <= i < |order| :: Writable(ValuesIn(m, order)[i])
  {
    forall i | 0 <= i < |order| ensures Writable(ValuesIn(m, order)[i]) {
      var k := order[i];
      assert k in m && ValuesIn(m, order)[i] == m[k];
      assert Writable(m[k]);
    }
  }

  lemma ConcatWritable(a: seq<Task>, b: seq<Task>)
    requires forall i | 0 <= i < |a| :: Writable(a[i])
    requires forall i | 0 <= i < |b| :: Writable(b[i])
    ensures forall i | 0 <= i < |a + b| :: Writable((a + b)[i])
  {
  }

  /** The lines `save` writes are read back as the record lines and the
      history line `loadFromFile` expects. */
  lemma SavedLayout(records: seq<Task>, h: seq<int>)
    ensures var body := Body(SaveLines(records, h));
      && RecordLines(body) == Texts(records)
      && HistoryLine(body) == (if h == [] then None else Some(HistoryToString(h)))
  {
    var tail := if h == [] then [] else [HistoryToString(h)];
    var rest := SavedBody(records, h);
    assert ([HEADER] + rest)[1..] == rest;
    TextsFilled(records);
    Layout(Texts(records), tail);
  }

  /** Each map of a savable state holds records of one type column. */
  lemma SavableTypes(s: Store)
    requires Savable(s)
    ensures forall k | k in s.tasks :: s.tasks[k].id == Some(k) && s.tasks[k].taskType == TASK
    ensures forall k | k in s.subtasks :: s.subtasks[k].id == Some(k) && s.subtasks[k].taskType == SUBTASK
    ensures forall k | k in s.epics :: s.epics[k].id == Some(k) && s.epics[k].taskType == EPIC
  {
    forall k | k in s.subtasks ensures s.subtasks[k].taskType == SUBTASK {
      assert Writable(s.subtasks[k]) && IsSubtask(s.subtasks[k]);
    }
  }

  /** Reading back the entries of `m` that `order` lists: all of them. */
  lemma ReloadsAll(m: map<int, Task>, order: seq<int>)
    requires Lists(order, m)
    ensures Reloads(m, order) == map k | k in m :: Reloaded(m[k])
  {
    forall k | k in m ensures k in Reloads(m, order) {
      assert k in order;
    }
  }

  /** The tasks and then the subtasks read back from their listed values. */
  lemma ReadBackFirst(s: Store, taskOrder: seq<int>, subtaskOrder: seq<int>)
    requires forall k | k in s.tasks :: s.tasks[k].id == Some(k) && s.tasks[k].taskType == TASK
    requires forall k | k in s.subtasks :: s.subtasks[k].id == Some(k) && s.subtasks[k].taskType == SUBTASK
    requires Lists(taskOrder, s.tasks) && Lists(subtaskOrder, s.subtasks)
    ensures PutAll(EMPTY, ValuesIn(s.tasks, taskOrder) + ValuesIn(s.subtasks, subtaskOrder))
      == Store(Reloads(s.tasks, taskOrder), Reloads(s.subtasks, subtaskOrder), map[])
  {
    var a, b := ValuesIn(s.tasks, taskOrder), ValuesIn(s.subtasks, subtaskOrder);
    var ts, ss := Reloads(s.tasks, taskOrder), Reloads(s.subtasks, subtaskOrder);
    PutListing(EMPTY, s.tasks, taskOrder, TASK);
    var s1 := PutAll(EMPTY, a);
    assert s1 == Store(ts, map[], map[]) by {
      assert map[] + ts == ts;
    }
    PutListing(s1, s.subtasks, subtaskOrder, SUBTASK);
    PutAllConcat(EMPTY, a, b);
    assert map[] + ss == ss;
  }

  /** The maps read back from the listed values of the three maps, each of
      one type column. */
  lemma ReadBack(s: Store, taskOrder: seq<int>, subtaskOrder: seq<int>, epicOrder: seq<int>)
    requires forall k | k in s.tasks :: s.tasks[k].id == Some(k) && s.tasks[k].taskType == TASK
    requires forall k | k in s.subtasks :: s.subtasks[k].id == Some(k) && s.subtasks[k].taskType == SUBTASK
    requires forall k | k in s.epics :: s.epics[k].id == Some(k) && s.epics[k].taskType == EPIC
    requires Lists(taskOrder, s.tasks) && Lists(subtaskOrder, s.subtasks) && Lists(epicOrder, s.epics)
    ensures var records := ValuesIn(s.tasks, taskOrder) + ValuesIn(s.subtasks, subtaskOrder) + ValuesIn(s.epics, epicOrder);
      PutAll(EMPTY, records) == Store(Reloads(s.tasks, taskOrder), Reloads(s.subtasks, subtaskOrder), Reloads(s.epics, epicOrder))
  {
    var ab, c := ValuesIn(s.tasks, taskOrder) + ValuesIn(s.subtasks, subtaskOrder), ValuesIn(s.epics, epicOrder);
    ReadBackFirst(s, taskOrder, subtaskOrder);
    var s1 := PutAll(EMPTY, ab);
    var es := Reloads(s.epics, epicOrder);
    PutListing(s1, s.epics, epicOrder, EPIC);
    assert PutAll(s1, c) == s1.(epics := es) by {
      assert map[] + es == es;
    }
    PutAllConcat(EMPTY, ab, c);
  }

  /** Reading back leaves the record of a task or a subtask as it was. */
  lemma ReloadedSame(m: map<int, Task>)
    requires forall k | k in m :: !IsEpic(m[k])
    ensures (map k | k in m :: Reloaded(m[k])) == m
  {
    forall k | k in m ensures Reloaded(m[k]) == m[k] {
    }
  }

  /** Linking the read-back epics gives each its subtask ids again. */
  lemma Relink(s: Store)
    requires Savable(s)
    ensures var epics := map e | e in s.epics :: Reloaded(s.epics[e]);
      EpicMap(epics) && Linkable(s.subtasks, epics)
      && Linked(s.subtasks, epics) == map e | e in s.epics :: Relinked(s.epics[e])
  {
  }

  /** `Load` of a file whose records read into `st` and whose history line,
      if any, lists `ids`, when every subtask's epic is there. */
  lemma LoadOf(how: Splitting, lines: seq<string>, st: Store, ids: seq<int>)
    requires LoadRecords(how, RecordLines(Body(lines))) == Success(st)
    requires var line := HistoryLine(Body(lines));
      (line.None? && ids == []) || (line.Some? && HistoryFromString(line.value) == Some(ids))
    requires StoreValid(st) && Linkable(st.subtasks, st.epics)
    ensures Load(how, lines) == Success((st.(epics := Linked(st.subtasks, st.epics)), Restore([], ids, st)))
  {
  }

  /** A task or an epic of the state loses its empty tail when written (a
      subtask never does). */
  predicate StoreLosesTail(s: Store) {
    || (exists k | k in s.tasks :: LosesEmptyTail(s.tasks[k]))
    || (exists k | k in s.epics :: LosesEmptyTail(s.epics[k]))
  }

  /** A listing of a map holds a record that loses its tail exactly when the
      map does. */
  lemma ListedLosesTail(m: map<int, Task>, order: seq<int>)
    requires Lists(order, m)
    ensures SomeLosesTail(ValuesIn(m, order)) <==> exists k | k in m :: LosesEmptyTail(m[k])
  {
    var vs := ValuesIn(m, order);
    if SomeLosesTail(vs) {
      var i :| 0 <= i < |vs| && LosesEmptyTail(vs[i]);
      assert order[i] in m && m[order[i]] == vs[i];
    }
    if exists k | k in m :: LosesEmptyTail(m[k]) {
      var k :| k in m && LosesEmptyTail(m[k]);
      assert k in order;
      var i :| 0 <= i < |order| && order[i] == k;
      assert vs[i] == m[k];
    }
  }

  lemma ConcatLosesTail(a: seq<Task>, b: seq<Task>)
    ensures SomeLosesTail(a + b) <==> SomeLosesTail(a) || SomeLosesTail(b)
  {
    if SomeLosesTail(a + b) {
      var i :| 0 <= i < |a + b| && LosesEmptyTail((a + b)[i]);
      if i >= |a| {
        assert b[i - |a|] == (a + b)[i];
      }
    }
    if SomeLosesTail(a) {
      var i :| 0 <= i < |a| && LosesEmptyTail(a[i]);
      assert (a + b)[i] == a[i];
    }
    if SomeLosesTail(b) {
      var i :| 0 <= i < |b| && LosesEmptyTail(b[i]);
      assert (a + b)[|a| + i] == b[i];
    }
  }

  /** The listed subtasks of a savable state never lose their tails. */
  lemma SubtasksKeepTail(s: Store, order: seq<int>)
    requires Savable(s) && Lists(order, s.subtasks)
    ensures !SomeLosesTail(ValuesIn(s.subtasks, order))
  {
    forall k | k in s.subtasks ensures !LosesEmptyTail(s.subtasks[k]) {
      ReadWritten(AllColumns, s.subtasks[k]);
    }
    ListedLosesTail(s.subtasks, order);
  }

  /** The saved record lines hold one that loses its tail exactly when the
      state does. */
  lemma SavedLosesTail(s: Store, taskOrder: seq<int>, subtaskOrder: seq<int>, epicOrder: seq<int>)
    requires Savable(s)
    requires Lists(taskOrder, s.tasks) && Lists(subtaskOrder, s.subtasks) && Lists(epicOrder, s.epics)
    ensures var records := ValuesIn(s.tasks, taskOrder) + ValuesIn(s.subtasks, subtaskOrder) + ValuesIn(s.epics, epicOrder);
      SomeLosesTail(records) <==> StoreLosesTail(s)
  {
    var a, b, c := ValuesIn(s.tasks, taskOrder), ValuesIn(s.subtasks, subtaskOrder), ValuesIn(s.epics, epicOrder);
    ListedLosesTail(s.tasks, taskOrder);
    SubtasksKeepTail(s, subtaskOrder);
    ListedLosesTail(s.epics, epicOrder);
    ConcatLosesTail(a, b);
    ConcatLosesTail(a + b, c);
  }

  /** The record lines of a saved state read back into its maps, except that
      the reading as written fails at the description column when a task or
      an epic loses its empty tail. */
  lemma SavedRecords(how: Splitting, s: Store, taskOrder: seq<int>, subtaskOrder: seq<int>, epicOrder: seq<int>, h: seq<int>)
    requires Savable(s)
    requires Lists(taskOrder, s.tasks) && Lists(subtaskOrder, s.subtasks) && Lists(epicOrder, s.epics)
    ensures var records := ValuesIn(s.tasks, taskOrder) + ValuesIn(s.subtasks, subtaskOrder) + ValuesIn(s.epics, epicOrder);
      LoadRecords(how, RecordLines(Body(SaveLines(records, h)))) ==
        if how == AsWritten && StoreLosesTail(s) then Failure(Unreadable(MissingColumn(4)))
        else Success(Store(s.tasks, s.subtasks, map e | e in s.epics :: Reloaded(s.epics[e])))
  {
    var a, b, c := ValuesIn(s.tasks, taskOrder), ValuesIn(s.subtasks, subtaskOrder), ValuesIn(s.epics, epicOrder);
    SavedLayout(a + b + c, h);
    ListedWritable(s.tasks, taskOrder);
    ListedWritable(s.subtasks, subtaskOrder);
    ListedWritable(s.epics, epicOrder);
    ConcatWritable(a, b);
    ConcatWritable(a + b, c);
    LoadTexts(how, a + b + c);
    SavedLosesTail(s, taskOrder, subtaskOrder, epicOrder);
    SavableTypes(s);
    ReadBack(s, taskOrder, subtaskOrder, epicOrder);
    ReloadsAll(s.tasks, taskOrder);
    ReloadsAll(s.subtasks, subtaskOrder);
    ReloadsAll(s.epics, epicOrder);
    ReloadedSame(s.tasks);
    ReloadedSame(s.subtasks);
  }

  /** The ids of a history over a savable state fit the format. */
  lemma HistoryIdsFit(s: Store, h: seq<int>)
    requires Savable(s)
    requires forall i | 0 <= i < |h| :: GetTaskUniversal(s, h[i]).Some?
    ensures forall i | 0 <= i < |h| :: LONG_MIN <= h[i] <= LONG_MAX
  {
    forall i | 0 <= i < |h| ensures LONG_MIN <= h[i] <= LONG_MAX {
      var k := h[i];
      if k in s.tasks {
        assert Writable(s.tasks[k]);
      } else if k in s.subtasks {
        assert Writable(s.subtasks[k]);
      } else {
        assert Writable(s.epics[k]);
      }
    }
  }

  /** Saving a manager state and loading the file gives the state back: the
      same tasks and subtasks, the same history, and each epic with its ids,
      name, description, status and subtask ids (`Relinked`). The source's
      reading, `AsWritten`, instead throws at the description column when a
      task or an epic has an empty description and empty last columns. */
  lemma SaveThenLoad(how: Splitting, s: Store, taskOrder: seq<int>, subtaskOrder: seq<int>, epicOrder: seq<int>, h: seq<int>)
    requires Savable(s)
    requires Lists(taskOrder, s.tasks) && Lists(subtaskOrder, s.subtasks) && Lists(epicOrder, s.epics)
    requires History.NoDup(h) && forall i | 0 <= i < |h| :: GetTaskUniversal(s, h[i]).Some?
    ensures var records := ValuesIn(s.tasks, taskOrder) + ValuesIn(s.subtasks, subtaskOrder) + ValuesIn(s.epics, epicOrder);
      Load(how, SaveLines(records, h)) ==
        if how == AsWritten && StoreLosesTail(s) then Failure(Unreadable(MissingColumn(4)))
        else Success((Store(s.tasks, s.subtasks, map e | e in s.epics :: Relinked(s.epics[e])), h))
  {
    var records := ValuesIn(s.tasks, taskOrder) + ValuesIn(s.subtasks, subtaskOrder) + ValuesIn(s.epics, epicOrder);
    SavedLayout(records, h);
    SavedRecords(how, s, taskOrder, subtaskOrder, epicOrder, h);
    if how == AsWritten && StoreLosesTail(s) {
      return;
    }
    var st := Store(s.tasks, s.subtasks, map e | e in s.epics :: Reloaded(s.epics[e]));
    if h != [] {
      HistoryIdsFit(s, h);
      HistoryRoundTrip(h);
    }
    RestoreSaved(h, st);
    Relink(s);
    LoadOf(how, SaveLines(records, h), st, h);
  }

  /** What an epic keeps through a save and a load: everything the line
      holds, its subtask ids, and its start and duration when its getters
      answer; only the end time, never written, goes back to the default. */
  lemma RelinkedKeeps(e: Task)
    requires IsEpic(e)
    ensures var r := Relinked(e);
      && r.id == e.id && r.name == e.name && r.description == e.description && r.status == e.status
      && r.taskType == EPIC && SubtaskIds(r) == SubtaskIds(e) && r.kind.endTime == DEFAULT_END_TIME
      && (DurationOf(e).Success? && StartTimeOf(e).Success? ==> r.duration == e.duration && r.startTime == e.startTime)
      && (DurationOf(e).Success? && StartTimeOf(e).Success? && e.kind.endTime == DEFAULT_END_TIME ==> r == e)
  {
  }
}
