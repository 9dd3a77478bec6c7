/** The text format of `manager/FileBackedTasksManager.java`: one line of
    eight comma-separated columns per task (`taskToString`, read back by
    `createTaskFromString`), and one line of history ids (`historyToString`,
    `historyFromString`).

    A start time is written as the decimal count of its minutes: this is the
    model's stand-in for `LocalDateTime.toString` and `LocalDateTime.parse`,
    a pair that reads back what it writes and never writes a comma. */
module Codec {
  import opened Wrappers
  import opened Tasks
  import opened Subtasks
  import opened Epics
  import opened Text

  /** The columns of `TABLE_HEADER`, which is their join without its line
      separator. */
  const HEADER_COLUMNS: seq<string> := ["id", "type", "name", "status", "description", "epic", "time", "duration"]
  const HEADER: string := Join(HEADER_COLUMNS, ',')

  /** The exceptions `createTaskFromString` and `historyFromString` can throw. */
  datatype DecodeError =
    | MissingColumn(index: nat)  // `split[index]` beyond the array
    | BadValue(index: nat)       // `valueOf` or `parse...` refuses column `index`

  /** `TaskType.toString`. */
  function TypeName(t: TaskType): (s: string)
    ensures s != "" && ',' !in s
  {
    match t
    case TASK => "TASK"
    case SUBTASK => "SUBTASK"
    case EPIC => "EPIC"
  }

  /** `TaskType.valueOf`: only the exact constant names. */
  function ParseType(s: string): (r: Option<TaskType>)
    ensures r.Some? ==> TypeName(r.value) == s
    ensures forall t: TaskType :: TypeName(t) == s ==> r == Some(t)
  {
    if s == "TASK" then Some(TASK)
    else if s == "SUBTASK" then Some(SUBTASK)
    else if s == "EPIC" then Some(EPIC)
    else None
  }

  /** `Status.toString`. */
  function StatusName(st: Status): (s: string)
    ensures s != "" && ',' !in s
  {
    match st
    case NEW => "NEW"
    case IN_PROGRESS => "IN_PROGRESS"
    case DONE => "DONE"
  }

  /** `Status.valueOf`. */
  function ParseStatus(s: string): (r: Option<Status>)
    ensures r.Some? ==> StatusName(r.value) == s
    ensures forall st: Status :: StatusName(st) == s ==> r == Some(st)
  {
    if s == "NEW" then Some(NEW)
    else if s == "IN_PROGRESS" then Some(IN_PROGRESS)
    else if s == "DONE" then Some(DONE)
    else None
  }

  /** The text of a start minute (`LocalDateTime.toString`). */
  function TimeText(minute: int): (s: string)
    ensures |s| >= 1 && ',' !in s
  {
    IntToString(minute)
  }

  /** `LocalDateTime.parse`. */
  function ParseTime(s: string): Option<int> {
    ParseDecimal(s)
  }

  /** The time text reads back as the minute it was written from. */
  lemma TimeRoundTrip(minute: int)
    ensures ParseTime(TimeText(minute)) == Some(minute)
  {
    DecimalRoundTrip(minute);
  }

  /** What `String.valueOf` and `String.join` write for a reference that may
      be null. */
  function NullableText(s: Option<string>): string {
    if s.Some? then s.value else "null"
  }

  function IdText(id: Option<int>): string {
    if id.Some? then IntToString(id.value) else "null"
  }

  /** The `time` and `duration` columns of `taskToString`: the default
      duration and the sentinel start are left empty, and both are empty when
      either getter throws (only an epic's can). */
  function TimeColumns(t: Task): (r: (string, string))
    ensures DurationOf(t).Failure? || StartTimeOf(t).Failure? ==> r == ("", "")
    ensures DurationOf(t).Success? && StartTimeOf(t).Success? ==>
      && (r.0 == "" <==> t.startTime == DEFAULT_START_TIME)
      && (r.1 == "" <==> t.duration == DEFAULT_DURATION)
    ensures ',' !in r.0 && ',' !in r.1
  {
    var d := DurationOf(t);
    var s := StartTimeOf(t);
    if d.Failure? || s.Failure? then ("", "")
    else
      (if s.value == DEFAULT_START_TIME then "" else TimeText(s.value.minute),
       if d.value == DEFAULT_DURATION then "" else IntToString(d.value))
  }

  /** The eight columns of `taskToString`, in the header's order. The epic
      column is filled for a SUBTASK and for nothing else. */
  function Columns(t: Task): (r: seq<string>)
    ensures |r| == |HEADER_COLUMNS| == 8
    ensures r[5] != "" <==> t.taskType == SUBTASK
    ensures r[1] == TypeName(t.taskType) && r[3] == StatusName(t.status)
    ensures (r[6], r[7]) == TimeColumns(t)
  {
    var (time, duration) := TimeColumns(t);
    [IdText(t.id), TypeName(t.taskType), NullableText(t.name), StatusName(t.status),
     NullableText(t.description), if t.taskType == SUBTASK then IntToString(GetEpicId(t)) else "",
     time, duration]
  }

  /** The header splits into its eight column names. */
  lemma HeaderColumns()
    ensures Split(HEADER, ',') == HEADER_COLUMNS && |HEADER_COLUMNS| == 8
  {
    var cols := HEADER_COLUMNS;
    assert forall i | 0 <= i < |cols| :: ',' !in cols[i];
    SplitJoin(cols, ',');
  }

  /** `taskToString`. */
  function TaskToString(t: Task): string {
    Join(Columns(t), ',')
  }

  /** The `time` column: empty is the sentinel. */
  function ReadStart(s: string): (r: Option<Time>)
    ensures r == Some(DEFAULT_START_TIME) <==> s == ""
  {
    if s == "" then Some(DEFAULT_START_TIME)
    else if ParseTime(s).Some? then Some(At(ParseTime(s).value))
    else None
  }

  /** The `duration` column: empty is 0. */
  function ReadDuration(s: string): (r: Option<int>)
    ensures r == Some(DEFAULT_DURATION) <==> s == "" || ParseInt(s) == Some(0)
  {
    if s == "" then Some(DEFAULT_DURATION) else ParseInt(s)
  }

  /** The two time columns read back as what the getters answered, or as the
      defaults when a getter threw. */
  lemma TimeColumnsReadBack(t: Task)
    requires INT_MIN <= t.duration <= INT_MAX
    ensures var (time, duration) := TimeColumns(t);
      if DurationOf(t).Success? && StartTimeOf(t).Success? then
        ReadStart(time) == Some(t.startTime) && ReadDuration(duration) == Some(t.duration)
      else
        ReadStart(time) == Some(DEFAULT_START_TIME) && ReadDuration(duration) == Some(DEFAULT_DURATION)
  {
    DecimalRoundTrip(t.duration);
    if t.startTime.At? {
      TimeRoundTrip(t.startTime.minute);
    }
  }

  /** `createTaskFromString` on columns already split, in the order the source
      reads them: the type, the id, the epic id of a SUBTASK, then the plain
      fields. A missing or empty `time` is the sentinel, a missing or empty
      `duration` is 0. */
  function DecodeColumns(cols: seq<string>): (r: Result<Task, DecodeError>)
    ensures r.Failure? && r.error.MissingColumn? ==> |cols| <= r.error.index
    ensures r.Failure? && r.error.BadValue? ==> r.error.index < |cols|
    ensures r.Success? ==>
      && |cols| >= 5 && r.value.id.Some? && ParseLong(cols[0]) == r.value.id
      && Some(r.value.taskType) == ParseType(cols[1])
      && r.value.name == Some(cols[2]) && Some(r.value.status) == ParseStatus(cols[3])
      && r.value.description == Some(cols[4])
      && (r.value.taskType == SUBTASK <==> IsSubtask(r.value))
      && (IsSubtask(r.value) ==> |cols| >= 6 && Some(GetEpicId(r.value)) == ParseLong(cols[5]))
      && (IsEpic(r.value) ==> SubtaskIds(r.value) == {} && r.value.kind.endTime == DEFAULT_END_TIME)
      && (r.value.startTime == DEFAULT_START_TIME <==> |cols| <= 6 || cols[6] == "")
      && (r.value.duration == DEFAULT_DURATION <==> |cols| <= 7 || cols[7] == "" || ParseInt(cols[7]) == Some(0))
  {
    if |cols| <= 1 then Failure(MissingColumn(1))
    else
      var ty := ParseType(cols[1]);
      var id := ParseLong(cols[0]);
      if ty.None? then Failure(BadValue(1))
      else if id.None? then Failure(BadValue(0))
      else if ty.value == SUBTASK && |cols| <= 5 then Failure(MissingColumn(5))
      else if ty.value == SUBTASK && ParseLong(cols[5]).None? then Failure(BadValue(5))
      else
        var blank: Task := match ty.value
          case SUBTASK => NewSubtask(ParseLong(cols[5]).value)
          case EPIC => NewEpic()
          case TASK => NewTask();
        if |cols| <= 2 then Failure(MissingColumn(2))
        else if |cols| <= 3 then Failure(MissingColumn(3))
        else if ParseStatus(cols[3]).None? then Failure(BadValue(3))
        else if |cols| <= 4 then Failure(MissingColumn(4))
        else
          var start := if |cols| <= 6 then Some(DEFAULT_START_TIME) else ReadStart(cols[6]);
          var duration := if |cols| <= 7 then Some(DEFAULT_DURATION) else ReadDuration(cols[7]);
          if start.None? then Failure(BadValue(6))
          else if duration.None? then Failure(BadValue(7))
          else
            var t := SetId(blank, id.value);
            var t := SetName(t, Some(cols[2]));
            var t := SetStatus(t, ParseStatus(cols[3]).value);
            var t := SetDescription(t, Some(cols[4]));
            Success(SetDuration(SetStartTime(t, start.value), duration.value))
  }

  /** `createTaskFromString` as the source writes it: `value.split(",")`,
      which drops the empty columns at the end of the line. */
  function DecodeRecordAsWritten(line: string): Result<Task, DecodeError> {
    DecodeColumns(Split(line, ','))
  }

  /** `createTaskFromString` reading every column the line has, empty ones at
      the end included (`value.split(",", -1)`): the reading that lets every
      written line back in. */
  function DecodeRecord(line: string): Result<Task, DecodeError> {
    DecodeColumns(SplitAll(line, ','))
  }

  /** How a record line is cut into columns: as the source does
      (`split(",")`), or keeping the empty columns at the end. */
  datatype Splitting = AsWritten | AllColumns

  /** `createTaskFromString` with the given way of cutting the line. */
  function ReadRecord(how: Splitting, line: string): (r: Result<Task, DecodeError>)
    ensures r.Success? ==> r.value.id.Some? && (r.value.taskType == SUBTASK <==> IsSubtask(r.value))
  {
    match how
    case AsWritten => DecodeRecordAsWritten(line)
    case AllColumns => DecodeRecord(line)
  }

  /** What the format can carry: an id and, for a subtask, an epic id that
      fit a `long`, a duration that fits an `int`, a name and a description
      that are set and hold no comma, and a subtask tagged SUBTASK. */
  predicate Writable(t: Task) {
    && t.id.Some? && LONG_MIN <= t.id.value <= LONG_MAX
    && t.name.Some? && ',' !in t.name.value
    && t.description.Some? && ',' !in t.description.value
    && INT_MIN <= t.duration <= INT_MAX
    && (IsSubtask(t) ==> t.taskType == SUBTASK && LONG_MIN <= GetEpicId(t) <= LONG_MAX)
  }

  /** What reading back the line of `t` gives: `t` itself, except that an
      epic comes back as a new `Epic` (no subtask ids, the default end time)
      carrying the time its getters reported, or the defaults when they
      threw. */
  function Reloaded(t: Task): (r: Task)
    ensures r.id == t.id && r.taskType == t.taskType && r.name == t.name && r.description == t.description
    ensures r.status == t.status && (IsEpic(r) <==> IsEpic(t))
    ensures IsEpic(t) ==> SubtaskIds(r) == {} && r.kind.endTime == DEFAULT_END_TIME
  {
    if !IsEpic(t) then t
    else
      var answered := DurationOf(t).Success? && StartTimeOf(t).Success?;
      t.(kind := EpicOf({}, DEFAULT_END_TIME),
         duration := if answered then t.duration else DEFAULT_DURATION,
         startTime := if answered then t.startTime else DEFAULT_START_TIME)
  }

  lemma {:induction false} ColumnsOfLine(t: Task)
    requires Writable(t)
    ensures SplitAll(TaskToString(t), ',') == Columns(t)
  {
    var cols := Columns(t);
    assert ',' !in cols[0] && ',' !in cols[5];
    SplitAllJoin(cols, ',');
  }

  /** Writing a record and reading it back keeps id, type, name, status and
      description; a task or subtask comes back whole. An epic comes back
      without subtask ids or end time (neither is written), with its start
      and duration when its getters answer and with the defaults when they
      throw. */
  lemma {:induction false} RecordRoundTrip(t: Task)
    requires Writable(t)
    ensures var r := DecodeRecord(TaskToString(t));
      && r == Success(Reloaded(t))
      && r.value.id == t.id && r.value.taskType == t.taskType && r.value.status == t.status
      && r.value.name == t.name && r.value.description == t.description
      && (!IsEpic(t) ==> r.value == t)
      && (IsEpic(t) ==> IsEpic(r.value) && SubtaskIds(r.value) == {} && r.value.kind.endTime == DEFAULT_END_TIME)
      && (IsEpic(t) && DurationOf(t).Success? && StartTimeOf(t).Success? ==>
            r.value.duration == t.duration && r.value.startTime == t.startTime)
      && (IsEpic(t) && (DurationOf(t).Failure? || StartTimeOf(t).Failure?) ==>
            r.value.duration == DEFAULT_DURATION && r.value.startTime == DEFAULT_START_TIME)
  {
    ColumnsOfLine(t);
    var cols := Columns(t);
    DecimalRoundTrip(t.id.value);
    if IsSubtask(t) {
      DecimalRoundTrip(GetEpicId(t));
    }
    TimeColumnsReadBack(t);
    assert ParseType(cols[1]) == Some(t.taskType) && ParseStatus(cols[3]) == Some(t.status);
  }

  /** The decoder as written reads a trimmed line like the full one as long
      as the trimming leaves the description column. */
  lemma {:induction false} DecodeTrimmed(p: seq<string>, c: seq<string>)
    requires |p| <= |c| && p == c[..|p|]
    requires forall i | |p| <= i < |c| :: c[i] == ""
    requires |p| >= 6 || (|p| == 5 && ParseType(c[1]) != Some(SUBTASK))
    ensures DecodeColumns(p) == DecodeColumns(c)
  {
    assert forall i | 0 <= i < |p| :: p[i] == c[i];
  }

  /** The record's description and its last three columns are all empty, so
      `split(",")` keeps only the first four columns of its line. */
  predicate LosesEmptyTail(t: Task) {
    t.description == Some("") && Columns(t)[5..] == ["", "", ""]
  }

  /** The decoder as written fails on exactly the written records whose
      description is empty and whose last three columns are empty too: the
      split then stops after the status column. On every other record it
      reads what the full decoder reads. */
  lemma {:induction false} AsWrittenLosesEmptyTail(t: Task)
    requires Writable(t)
    ensures DecodeRecordAsWritten(TaskToString(t)).Failure? <==> LosesEmptyTail(t)
    ensures DecodeRecordAsWritten(TaskToString(t)).Failure? ==>
      DecodeRecordAsWritten(TaskToString(t)) == Failure(MissingColumn(4))
    ensures DecodeRecordAsWritten(TaskToString(t)).Success? ==>
      DecodeRecordAsWritten(TaskToString(t)) == DecodeRecord(TaskToString(t))
  {
    var cols := Columns(t);
    SplitJoin(cols, ',');
    var p := Split(TaskToString(t), ',');
    assert p == TrimTrailing(cols);
    assert cols[3] != "";
    if |p| == 4 {
      assert cols[4] == "" && cols[5] == "" && cols[6] == "" && cols[7] == "";
      assert cols[5..] == ["", "", ""];
      DecimalRoundTrip(t.id.value);
      DecodeStopsAtDescription(p);
    } else {
      if |p| == 5 {
        assert cols[5] == "";
      }
      assert !(cols[4] == "" && cols[5..] == ["", "", ""]) by {
        assert p[|p| - 1] != "" && p[|p| - 1] == cols[|p| - 1];
      }
      DecodeTrimmed(p, cols);
      ColumnsOfLine(t);
      RecordRoundTrip(t);
    }
  }

  /** A written record read back either way: the reading as written fails
      at the description column exactly when the record loses its empty
      tail, and otherwise both readings give the record as `Reloaded`
      states it. A subtask never loses its tail, its epic column being
      filled. */
  lemma ReadWritten(how: Splitting, t: Task)
    requires Writable(t)
    ensures ReadRecord(how, TaskToString(t)) ==
      if how == AsWritten && LosesEmptyTail(t) then Failure(MissingColumn(4)) else Success(Reloaded(t))
    ensures IsSubtask(t) ==> !LosesEmptyTail(t)
  {
    AsWrittenLosesEmptyTail(t);
    RecordRoundTrip(t);
  }

  /** Four columns that read as far as the status fail at the description. */
  lemma DecodeStopsAtDescription(p: seq<string>)
    requires |p| == 4
    requires ParseLong(p[0]).Some? && ParseType(p[1]).Some? && ParseType(p[1]) != Some(SUBTASK)
    requires ParseStatus(p[3]).Some?
    ensures DecodeColumns(p) == Failure(MissingColumn(4))
  {
  }

  /** A task with an empty description and no time: the source writes
      `0,TASK,n,NEW,,,,`, its `split(",")` keeps four columns and reading
      `split[4]` throws, so `loadFromFile` cannot read back what `save` wrote. */
  lemma EmptyDescriptionIsUnreadable()
    ensures var t := SetDescription(SetName(SetId(NewTask(), 0), Some("n")), Some(""));
      && Columns(t) == ["0", "TASK", "n", "NEW", "", "", "", ""]
      && DecodeRecordAsWritten(TaskToString(t)) == Failure(MissingColumn(4))
      && DecodeRecord(TaskToString(t)) == Success(t)
  {
    var t := SetDescription(SetName(SetId(NewTask(), 0), Some("n")), Some(""));
    var cols := Columns(t);
    assert cols == ["0", "TASK", "n", "NEW", "", "", "", ""];
    SplitJoin(cols, ',');
    assert TrimTrailing(cols) == cols[..4];
    DecimalRoundTrip(0);
    DecodeStopsAtDescription(cols[..4]);
    ColumnsOfLine(t);
    RecordRoundTrip(t);
  }

  /** The ids of a history, as `historyToString` prints them. */
  function Decimals(h: seq<int>): (r: seq<string>)
    ensures |r| == |h|
    ensures forall i | 0 <= i < |r| :: r[i] == IntToString(h[i])
  {
    if h == [] then [] else [IntToString(h[0])] + Decimals(h[1..])
  }

  /** `Long::parseLong` over every piece; the first refusal is thrown. */
  function ParseLongs(pieces: seq<string>): (r: Option<seq<int>>)
    ensures r.Some? <==> forall i | 0 <= i < |pieces| :: ParseLong(pieces[i]).Some?
    ensures r.Some? ==> |r.value| == |pieces| && forall i | 0 <= i < |pieces| :: Some(r.value[i]) == ParseLong(pieces[i])
  {
    if pieces == [] then Some([])
    else
      var head := ParseLong(pieces[0]);
      var tail := ParseLongs(pieces[1..]);
      if head.Some? && tail.Some? then Some([head.value] + tail.value) else None
  }

  /** `historyToString`: the ids joined by commas, oldest first. */
  function HistoryToString(h: seq<int>): (s: string)
    ensures s == "" <==> h == []
  {
    EmptyOnlyForNoIds(h);
    Join(Decimals(h), ',')
  }

  lemma EmptyOnlyForNoIds(h: seq<int>)
    ensures Join(Decimals(h), ',') == "" <==> h == []
  {
    if |h| >= 2 {
      JoinHasSeparator(Decimals(h), ',');
    }
  }

  /** `historyFromString`. */
  function HistoryFromString(line: string): Option<seq<int>> {
    ParseLongs(Split(line, ','))
  }

  /** A non-empty history of ids that fit a `long` reads back as itself. The
      empty history is written as an empty line, which the loader never
      parses. */
  lemma {:induction false} HistoryRoundTrip(h: seq<int>)
    requires |h| > 0
    requires forall i | 0 <= i < |h| :: LONG_MIN <= h[i] <= LONG_MAX
    ensures HistoryFromString(HistoryToString(h)) == Some(h)
  {
    var parts := Decimals(h);
    SplitJoin(parts, ',');
    ParseDecimals(h);
  }

  lemma {:induction false} ParseDecimals(h: seq<int>)
    requires forall i | 0 <= i < |h| :: LONG_MIN <= h[i] <= LONG_MAX
    ensures ParseLongs(Decimals(h)) == Some(h)
  {
    if h != [] {
      DecimalRoundTrip(h[0]);
      ParseDecimals(h[1..]);
      assert Decimals(h)[1..] == Decimals(h[1..]);
      assert [h[0]] + h[1..] == h;
    }
  }
}
