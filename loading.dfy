/** What `loadFromFile` of `manager/FileBackedTasksManager.java` reads,
    stated over values: the file as the sequence of its lines (as
    `BufferedReader.readLine` returns them), the three maps it fills and the
    history ids it replays. */
module Loading {
  import opened Wrappers
  import opened Tasks
  import opened Subtasks
  import opened Epics
  import opened Text
  import opened Codec
  import opened ManagerState
  import History
  import Sets

  /** Why `loadFromFile` throws. */
  datatype LoadError =
    | Unreadable(error: DecodeError)  // `createTaskFromString` threw
    | UnreadableHistory               // `Long.parseLong` refused a history id
    | MissingEpic                     // a subtask names an epic that was not loaded

  /** The three maps of a manager. */
  datatype Store = Store(tasks: map<int, Task>, subtasks: map<int, Task>, epics: map<int, Task>)

  const EMPTY: Store := Store(map[], map[], map[])

  predicate StoreValid(s: Store) {
    TaskMap(s.tasks) && SubtaskMap(s.subtasks) && EpicMap(s.epics)
  }

  /** The map writes of `createTaskFromString`: the record goes under its id
      into the map its type column names, and only there. */
  function Put(s: Store, t: Task): (r: Store)
    requires t.id.Some?
    ensures var k := t.id.value;
      && (t.taskType == TASK ==> r == s.(tasks := s.tasks[k := t]))
      && (t.taskType == SUBTASK ==> r == s.(subtasks := s.subtasks[k := t]))
      && (t.taskType == EPIC ==> r == s.(epics := s.epics[k := t]))
    ensures StoreValid(s) ==> StoreValid(r)
  {
    var k := t.id.value;
    match t.taskType
    case SUBTASK => s.(subtasks := s.subtasks[k := t])
    case EPIC => s.(epics := s.epics[k := t])
    case TASK => s.(tasks := s.tasks[k := t])
  }

  /** `getTaskUniversal`: the tasks are searched first, then the subtasks,
      then the epics; an id in none of them gives null. */
  function GetTaskUniversal(s: Store, id: int): (r: Option<Task>)
    ensures r.Some? <==> id in s.tasks || id in s.subtasks || id in s.epics
    ensures id in s.tasks ==> r == Some(s.tasks[id])
    ensures id !in s.tasks && id in s.subtasks ==> r == Some(s.subtasks[id])
    ensures id !in s.tasks && id !in s.subtasks && id in s.epics ==> r == Some(s.epics[id])
    ensures StoreValid(s) && r.Some? ==> r.value.id == Some(id)
  {
    if id in s.tasks then Some(s.tasks[id])
    else if id in s.subtasks then Some(s.subtasks[id])
    else if id in s.epics then Some(s.epics[id])
    else None
  }

  /** The lines after the first one, which holds the header. */
  function Body(lines: seq<string>): seq<string> {
    if |lines| > 0 then lines[1..] else []
  }

  /** The index of the first empty line, or the length when there is none. */
  function FirstBlank(body: seq<string>): (i: nat)
    ensures i <= |body| && (i < |body| ==> body[i] == "")
    ensures forall j | 0 <= j < i :: body[j] != ""
  {
    if body == [] || body[0] == "" then 0 else 1 + FirstBlank(body[1..])
  }

  /** The index of the first non-empty line, or the length when there is none. */
  function FirstFilled(body: seq<string>): (i: nat)
    ensures i <= |body| && (i < |body| ==> body[i] != "")
    ensures forall j | 0 <= j < i :: body[j] == ""
  {
    if body == [] || body[0] != "" then 0 else 1 + FirstFilled(body[1..])
  }

  /** The record lines: those before the first empty line. */
  function RecordLines(body: seq<string>): seq<string> {
    body[..FirstBlank(body)]
  }

  /** The history line: the first non-empty line after the first empty one,
      if there is one. Whatever follows it is never read. */
  function HistoryLine(body: seq<string>): (r: Option<string>)
    ensures r.Some? ==> r.value != ""
  {
    var b := FirstBlank(body);
    if b == |body| then None
    else
      var rest := body[b + 1..];
      var f := FirstFilled(rest);
      if f == |rest| then None else Some(rest[f])
  }

  /** `FirstFilled` is the index of the first non-empty line. */
  lemma {:induction false} FirstFilledAt(rest: seq<string>, f: nat)
    requires f <= |rest| && forall j | 0 <= j < f :: rest[j] == ""
    requires f < |rest| ==> rest[f] != ""
    ensures FirstFilled(rest) == f
  {
    if f > 0 {
      FirstFilledAt(rest[1..], f - 1);
    }
  }

  /** Once a blank line has been passed, a non-empty line at `i` with only
      blank lines between is the history line. */
  lemma HistoryLineAt(body: seq<string>, i: nat)
    requires FirstBlank(body) < i < |body| && body[i] != ""
    requires forall j | FirstBlank(body) <= j < i :: body[j] == ""
    ensures HistoryLine(body) == Some(body[i])
  {
    var b := FirstBlank(body);
    var rest := body[b + 1..];
    FirstFilledAt(rest, i - b - 1);
  }

  /** With only blank lines after the first blank one, there is no history. */
  lemma NoHistoryLine(body: seq<string>)
    requires forall j | FirstBlank(body) <= j < |body| :: body[j] == ""
    ensures HistoryLine(body) == None
  {
    var b := FirstBlank(body);
    if b < |body| {
      FirstFilledAt(body[b + 1..], |body| - b - 1);
    }
  }

  /** The maps after reading `records`, each cut into columns as `how`
      says, one after the other into empty ones; the first line that cannot
      be read ends the load. */
  function LoadRecords(how: Splitting, records: seq<string>): (r: Result<Store, LoadError>)
    ensures r.Success? ==> StoreValid(r.value)
    ensures r.Failure? ==> r.error.Unreadable?
  {
    if records == [] then Success(EMPTY)
    else
      var s := LoadRecords(how, records[..|records| - 1]);
      var t := ReadRecord(how, records[|records| - 1]);
      if s.Failure? then s
      else if t.Failure? then Failure(Unreadable(t.error))
      else Success(Put(s.value, t.value))
  }

  /** A line that cannot be read ends the load: the longer run of records
      fails the same way. */
  lemma {:induction false} LoadRecordsFailureSticks(how: Splitting, records: seq<string>, i: nat)
    requires i <= |records| && LoadRecords(how, records[..i]).Failure?
    ensures LoadRecords(how, records) == LoadRecords(how, records[..i])
    decreases |records| - i
  {
    if i < |records| {
      assert records[..i + 1][..i] == records[..i];
      LoadRecordsFailureSticks(how, records, i + 1);
    } else {
      assert records[..i] == records;
    }
  }

  /** The history after `historyManager.add(getTaskUniversal(id))` for each
      of `ids` in turn, starting from `h`: an unknown id adds nothing. */
  function Restore(h: seq<int>, ids: seq<int>, s: Store): seq<int> {
    if ids == [] then h
    else
      var before := Restore(h, ids[..|ids| - 1], s);
      var id := ids[|ids| - 1];
      if GetTaskUniversal(s, id).Some? then History.Accessed(before, id) else before
  }

  /** An epic with more subtask ids. */
  function WithSubtaskIds(e: Task, ids: set<int>): (r: Task)
    requires IsEpic(e)
    ensures IsEpic(r) && SubtaskIds(r) == SubtaskIds(e) + ids
    ensures r == e.(kind := r.kind) && r.kind.endTime == e.kind.endTime
  {
    e.(kind := e.kind.(subtaskIds := e.kind.subtaskIds + ids))
  }

  /** The ids in `ks` of the subtasks that name epic `e`. */
  function MembersOf(subtasks: map<int, Task>, ks: set<int>, e: int): set<int>
    requires SubtaskMap(subtasks) && ks <= subtasks.Keys
  {
    set k | k in ks && GetEpicId(subtasks[k]) == e
  }

  /** The state of the linking loop once the subtasks `done` are linked:
      each of them names an epic that is there, and each epic holds the ids
      of those of them that name it. */
  ghost predicate LinkedSoFar(subtasks: map<int, Task>, epics: map<int, Task>, es: map<int, Task>, done: set<int>)
    requires SubtaskMap(subtasks) && EpicMap(epics) && done <= subtasks.Keys
  {
    && (forall k | k in done :: GetEpicId(subtasks[k]) in epics)
    && es.Keys == epics.Keys
    && (forall e | e in es :: es[e] == WithSubtaskIds(epics[e], MembersOf(subtasks, done, e)))
  }

  /** Adding one more subtask's id to the epic it names keeps the loop state. */
  lemma LinkStep(subtasks: map<int, Task>, epics: map<int, Task>, es: map<int, Task>, done: set<int>, k: int)
    requires SubtaskMap(subtasks) && EpicMap(epics) && done <= subtasks.Keys && k in subtasks && k !in done
    requires LinkedSoFar(subtasks, epics, es, done) && GetEpicId(subtasks[k]) in es
    ensures var e := GetEpicId(subtasks[k]);
      IsEpic(es[e]) && LinkedSoFar(subtasks, epics, es[e := AddSubtaskId(es[e], k)], done + {k})
  {
    var e := GetEpicId(subtasks[k]);
    var es' := es[e := AddSubtaskId(es[e], k)];
    forall e' | e' in es' ensures es'[e'] == WithSubtaskIds(epics[e'], MembersOf(subtasks, done + {k}, e')) {
      if e' == e {
        assert MembersOf(subtasks, done + {k}, e') == MembersOf(subtasks, done, e') + {k};
      } else {
        assert MembersOf(subtasks, done + {k}, e') == MembersOf(subtasks, done, e');
      }
    }
  }

  lemma LinkedAtStart(subtasks: map<int, Task>, epics: map<int, Task>)
    requires SubtaskMap(subtasks) && EpicMap(epics)
    ensures LinkedSoFar(subtasks, epics, epics, {})
  {
    forall e | e in epics ensures epics[e] == WithSubtaskIds(epics[e], MembersOf(subtasks, {}, e)) {
      assert MembersOf(subtasks, {}, e) == {};
    }
  }

  lemma LinkedAtEnd(subtasks: map<int, Task>, epics: map<int, Task>, es: map<int, Task>, done: set<int>)
    requires SubtaskMap(subtasks) && EpicMap(epics) && done == subtasks.Keys
    requires LinkedSoFar(subtasks, epics, es, done)
    ensures Linkable(subtasks, epics) && es == Linked(subtasks, epics)
  {
  }

  /** Every subtask names an epic that is there. */
  predicate Linkable(subtasks: map<int, Task>, epics: map<int, Task>)
    requires SubtaskMap(subtasks)
  {
    forall k | k in subtasks :: GetEpicId(subtasks[k]) in epics
  }

  /** Each epic with the ids of the subtasks that name it added. */
  function Linked(subtasks: map<int, Task>, epics: map<int, Task>): (r: map<int, Task>)
    requires SubtaskMap(subtasks) && EpicMap(epics)
    ensures EpicMap(r) && r.Keys == epics.Keys
  {
    map e | e in epics :: WithSubtaskIds(epics[e], MembersOf(subtasks, subtasks.Keys, e))
  }

  /** `loadFromFile` over the lines of a file, each record line cut into
      columns as `how` says (`AsWritten` is the source): the records before
      the first empty line are read into the maps, the ids of the history
      line are replayed into the history, and then every subtask's id is
      added to its epic. */
  function Load(how: Splitting, lines: seq<string>): (r: Result<(Store, seq<int>), LoadError>)
    ensures r.Success? ==> StoreValid(r.value.0)
  {
    var body := Body(lines);
    var s := LoadRecords(how, RecordLines(body));
    if s.Failure? then Failure(s.error)
    else
      var line := HistoryLine(body);
      var ids := if line.Some? then HistoryFromString(line.value) else Some([]);
      var st := s.value;
      if ids.None? then Failure(UnreadableHistory)
      else if !Linkable(st.subtasks, st.epics) then Failure(MissingEpic)
      else Success((st.(epics := Linked(st.subtasks, st.epics)), Restore([], ids.value, st)))
  }

  /** The last loop of `loadFromFile`: every subtask's id is added to the
      epic it names, in no particular order; a missing epic is a null
      dereference. */
  method LinkSubtasks(subtasks: map<int, Task>, epics: map<int, Task>) returns (r: Result<map<int, Task>, LoadError>)
    requires SubtaskMap(subtasks) && EpicMap(epics)
    ensures r.Success? <==> Linkable(subtasks, epics)
    ensures r.Success? ==> r.value == Linked(subtasks, epics)
    ensures r.Failure? ==> r.error == MissingEpic
  {
    var es: map<int, Task> := epics;
    var left := subtasks.Keys;
    ghost var done: set<int> := {};
    LinkedAtStart(subtasks, epics);
    while left != {}
      invariant left + done == subtasks.Keys && left !! done
      invariant LinkedSoFar(subtasks, epics, es, done)
      decreases left
    {
      Sets.Nonempty(left);
      var k :| k in left;
      var e := GetEpicId(subtasks[k]);
      if e !in es {
        assert e !in epics;
        return Failure(MissingEpic);
      }
      LinkStep(subtasks, epics, es, done, k);
      es := es[e := AddSubtaskId(es[e], k)];
      left, done := left - {k}, done + {k};
    }
    LinkedAtEnd(subtasks, epics, es, done);
    r := Success(es);
  }
}
