/** The epic aggregator of `InMemoryTaskManager` (`updateStatus`,
    `updateTime`): an epic's status and time recomputed from the subtasks
    its id set names, looked up in the manager's `subtasks` map. A name that
    the map does not hold makes the source dereference null; the methods
    then return `None`. */
module Aggregator {
  import opened Wrappers
  import opened Tasks
  import opened Epics
  import opened Sets

  /** The status rule over the set of statuses the subtasks have. */
  function DerivedStatus(statuses: set<Status>): Status {
    if statuses == {} || statuses == {NEW} then NEW
    else if statuses == {DONE} then DONE
    else IN_PROGRESS
  }

  /** The rule against a plain enumeration of the subtasks' statuses, in any
      order and with repetitions: none gives NEW, all alike gives that status,
      any mix gives IN_PROGRESS. */
  lemma StatusLaw(statuses: seq<Status>)
    ensures DerivedStatus(set x | x in statuses) ==
      if statuses == [] then NEW
      else if forall i | 0 <= i < |statuses| :: statuses[i] == statuses[0] then statuses[0]
      else IN_PROGRESS
  {
    var s := set x | x in statuses;
    if statuses != [] {
      if forall i | 0 <= i < |statuses| :: statuses[i] == statuses[0] {
        assert s == {statuses[0]};
      } else {
        var i :| 0 <= i < |statuses| && statuses[i] != statuses[0];
        MixedIsInProgress(s, statuses[0], statuses[i]);
      }
    }
  }

  lemma MixedIsInProgress(s: set<Status>, a: Status, b: Status)
    requires a in s && b in s && a != b
    ensures DerivedStatus(s) == IN_PROGRESS
  {
  }

  ghost function StatusesOf(ids: set<int>, subtasks: map<int, Task>): set<Status>
    requires ids <= subtasks.Keys
  {
    set i | i in ids :: subtasks[i].status
  }

  ghost function EpicStatus(ids: set<int>, subtasks: map<int, Task>): Status
    requires ids <= subtasks.Keys
  {
    DerivedStatus(StatusesOf(ids, subtasks))
  }

  /** `updateStatus`: visits the subtask ids in the set's (unspecified) order,
      keeps the first status seen and stops at the first that differs. Only
      the status changes. When every id resolves, the result is the status
      rule; when one does not, either the walk reached it (null) or it
      stopped early on a mix. */
  method UpdateStatus(epic: Task, subtasks: map<int, Task>) returns (r: Option<Task>)
    requires IsEpic(epic)
    ensures SubtaskIds(epic) <= subtasks.Keys ==> r == Some(epic.(status := EpicStatus(SubtaskIds(epic), subtasks)))
    ensures r.None? ==> !(SubtaskIds(epic) <= subtasks.Keys)
    ensures r.Some? ==> r.value == epic.(status := r.value.status)
    ensures r.Some? && !(SubtaskIds(epic) <= subtasks.Keys) ==> r.value.status == IN_PROGRESS
  {
    var ids := SubtaskIds(epic);
    var newStatus: Option<Status> := None;
    var mixed := false;
    ghost var firstId := 0;
    ghost var breakId := 0;
    var rest := ids;
    while rest != {}
      invariant rest <= ids && ids - rest <= subtasks.Keys
      invariant newStatus.None? <==> rest == ids
      invariant newStatus.Some? ==> firstId in ids - rest && subtasks[firstId].status == newStatus.value
      invariant newStatus.Some? ==> StatusesOf(ids - rest, subtasks) == {newStatus.value}
      invariant !mixed
      decreases rest
    {
      Nonempty(rest);
      var id :| id in rest;
      if id !in subtasks {
        return None;  // `subtask.getStatus()` on null
      }
      var subtask := subtasks[id];
      if newStatus.Some? {
        if subtask.status != newStatus.value {
          breakId := id;
          mixed := true;
          newStatus := Some(IN_PROGRESS);
          break;
        }
      } else {
        newStatus := Some(subtask.status);
        firstId := id;
      }
      assert StatusesOf(ids - (rest - {id}), subtasks) == StatusesOf(ids - rest, subtasks) + {subtask.status};
      rest := rest - {id};
    }
    if !mixed {
      assert ids - rest == ids;
    } else {
      assert firstId in subtasks && breakId in subtasks && subtasks[firstId].status != subtasks[breakId].status;
      if ids <= subtasks.Keys {
        MixedIsInProgress(StatusesOf(ids, subtasks), subtasks[firstId].status, subtasks[breakId].status);
      }
    }
    if newStatus.None? || subtasks == map[] {
      newStatus := Some(NEW);
    }
    r := Some(epic.(status := newStatus.value));
  }

  ghost function SetMin(s: set<int>): (m: int)
    requires s != {}
    ensures m in s && forall x | x in s :: m <= x
  {
    Nonempty(s);
    var x :| x in s;
    if s == {x} then x
    else
      var m' := SetMin(s - {x});
      assert forall y | y in s :: y == x || y in s - {x};
      if x <= m' then x else m'
  }

  ghost function SetMax(s: set<int>): (m: int)
    requires s != {}
    ensures m in s && forall x | x in s :: x <= m
  {
    Nonempty(s);
    var x :| x in s;
    if s == {x} then x
    else
      var m' := SetMax(s - {x});
      assert forall y | y in s :: y == x || y in s - {x};
      if x >= m' then x else m'
  }

  /** The subtasks that have a start time. */
  ghost function TimedIds(ids: set<int>, subtasks: map<int, Task>): set<int>
    requires ids <= subtasks.Keys
  {
    set i | i in ids && subtasks[i].startTime.At?
  }

  ghost function Starts(ids: set<int>, subtasks: map<int, Task>): set<int>
    requires ids <= subtasks.Keys
  {
    set i | i in TimedIds(ids, subtasks) :: subtasks[i].startTime.minute
  }

  ghost function Ends(ids: set<int>, subtasks: map<int, Task>): set<int>
    requires ids <= subtasks.Keys
  {
    set i | i in TimedIds(ids, subtasks) :: subtasks[i].startTime.minute + subtasks[i].duration
  }

  /** The sum of the durations of every named subtask, timed or not. */
  ghost function SumDurations(ids: set<int>, subtasks: map<int, Task>): int
    requires ids <= subtasks.Keys
  {
    if ids == {} then 0
    else
      Nonempty(ids);
      var x :| x in ids;
      subtasks[x].duration + SumDurations(ids - {x}, subtasks)
  }

  lemma {:induction false} SumDurationsRemove(ids: set<int>, subtasks: map<int, Task>, y: int)
    requires ids <= subtasks.Keys && y in ids
    ensures SumDurations(ids, subtasks) == subtasks[y].duration + SumDurations(ids - {y}, subtasks)
    decreases |ids|
  {
    var x :| x in ids && SumDurations(ids, subtasks) == subtasks[x].duration + SumDurations(ids - {x}, subtasks);
    if x != y {
      SumDurationsRemove(ids - {x}, subtasks, y);
      SumDurationsRemove(ids - {y}, subtasks, x);
      assert ids - {x} - {y} == ids - {y} - {x};
    }
  }

  /** The epic with `updateTime`'s result: with at least one timed subtask,
      the duration is the sum over all of them, the start the earliest start
      and the end the latest end among the timed ones; otherwise (including
      no subtasks at all) the defaults and the sentinels. */
  ghost function WithTime(epic: Task, subtasks: map<int, Task>): Task
    requires IsEpic(epic) && SubtaskIds(epic) <= subtasks.Keys
  {
    var ids := SubtaskIds(epic);
    if TimedIds(ids, subtasks) == {} then
      epic.(duration := DEFAULT_DURATION, startTime := DEFAULT_START_TIME, kind := EpicOf(ids, DEFAULT_END_TIME))
    else
      assert Starts(ids, subtasks) != {} && Ends(ids, subtasks) != {} by {
        Nonempty(TimedIds(ids, subtasks));
        var i :| i in TimedIds(ids, subtasks);
        assert subtasks[i].startTime.minute in Starts(ids, subtasks);
        assert subtasks[i].startTime.minute + subtasks[i].duration in Ends(ids, subtasks);
      }
      epic.(duration := SumDurations(ids, subtasks),
            startTime := At(SetMin(Starts(ids, subtasks))),
            kind := EpicOf(ids, At(SetMax(Ends(ids, subtasks)))))
  }

  /** Visiting one more subtask adds its start and end when it is timed. */
  lemma VisitStep(seen: set<int>, subtasks: map<int, Task>, id: int)
    requires seen <= subtasks.Keys && id in subtasks && id !in seen
    ensures subtasks[id].startTime.At? ==>
      && TimedIds(seen + {id}, subtasks) == TimedIds(seen, subtasks) + {id}
      && Starts(seen + {id}, subtasks) == Starts(seen, subtasks) + {subtasks[id].startTime.minute}
      && Ends(seen + {id}, subtasks) == Ends(seen, subtasks) + {subtasks[id].startTime.minute + subtasks[id].duration}
    ensures subtasks[id].startTime.Max? ==>
      && TimedIds(seen + {id}, subtasks) == TimedIds(seen, subtasks)
      && Starts(seen + {id}, subtasks) == Starts(seen, subtasks)
      && Ends(seen + {id}, subtasks) == Ends(seen, subtasks)
  {
    if subtasks[id].startTime.At? {
      assert TimedIds(seen + {id}, subtasks) == TimedIds(seen, subtasks) + {id};
    } else {
      assert TimedIds(seen + {id}, subtasks) == TimedIds(seen, subtasks);
    }
  }

  lemma SetMinAdd(s: set<int>, v: int)
    ensures SetMin(s + {v}) == if s == {} || v < SetMin(s) then v else SetMin(s)
  {
    var m := if s == {} || v < SetMin(s) then v else SetMin(s);
    assert m in s + {v} && forall y | y in s + {v} :: m <= y;
  }

  lemma SetMaxAdd(s: set<int>, v: int)
    ensures SetMax(s + {v}) == if s == {} || v > SetMax(s) then v else SetMax(s)
  {
    var m := if s == {} || v > SetMax(s) then v else SetMax(s);
    assert m in s + {v} && forall y | y in s + {v} :: y <= m;
  }

  /** The loop state of `updateTime` after visiting the ids in `seen`. */
  ghost predicate Folded(seen: set<int>, subtasks: map<int, Task>, min: Option<int>, max: Option<int>, sum: int)
    requires seen <= subtasks.Keys
  {
    && sum == SumDurations(seen, subtasks)
    && (min.None? <==> TimedIds(seen, subtasks) == {})
    && (min.None? <==> max.None?)
    && (min.Some? ==> Starts(seen, subtasks) != {} && min.value == SetMin(Starts(seen, subtasks)))
    && (max.Some? ==> Ends(seen, subtasks) != {} && max.value == SetMax(Ends(seen, subtasks)))
  }

  lemma FoldStep(seen: set<int>, subtasks: map<int, Task>, id: int,
                 min: Option<int>, max: Option<int>, sum: int, min': Option<int>, max': Option<int>)
    requires seen <= subtasks.Keys && id in subtasks && id !in seen
    requires Folded(seen, subtasks, min, max, sum)
    requires var t := subtasks[id];
      if t.startTime == DEFAULT_START_TIME then min' == min && max' == max
      else
        var start, end := t.startTime.minute, t.startTime.minute + t.duration;
        && min' == (if min.None? || start < min.value then Some(start) else min)
        && max' == (if max.None? || end > max.value then Some(end) else max)
    ensures Folded(seen + {id}, subtasks, min', max', sum + subtasks[id].duration)
  {
    var t := subtasks[id];
    SumDurationsRemove(seen + {id}, subtasks, id);
    assert seen + {id} - {id} == seen;
    VisitStep(seen, subtasks, id);
    if t.startTime != DEFAULT_START_TIME {
      SetMinAdd(Starts(seen, subtasks), t.startTime.minute);
      SetMaxAdd(Ends(seen, subtasks), t.startTime.minute + t.duration);
    }
  }

  /** A pass over all the subtask ids yields the recomputed epic. */
  lemma FoldedAtEnd(epic: Task, subtasks: map<int, Task>, min: Option<int>, max: Option<int>, sum: int)
    requires IsEpic(epic) && SubtaskIds(epic) <= subtasks.Keys
    requires Folded(SubtaskIds(epic), subtasks, min, max, sum)
    ensures var ids := SubtaskIds(epic);
      && (min.Some? ==>
            max.Some? && epic.(duration := sum, startTime := At(min.value), kind := EpicOf(ids, At(max.value))) == WithTime(epic, subtasks))
      && (min.None? ==>
            epic.(duration := DEFAULT_DURATION, startTime := DEFAULT_START_TIME, kind := EpicOf(ids, DEFAULT_END_TIME)) == WithTime(epic, subtasks))
  {
  }

  /** `updateTime`: one pass over the subtask ids, taking the minimum start
      and the maximum end over the timed subtasks and the sum of all
      durations. Only the duration, the start and the end change. */
  method UpdateTime(epic: Task, subtasks: map<int, Task>) returns (r: Option<Task>)
    requires IsEpic(epic)
    ensures SubtaskIds(epic) <= subtasks.Keys ==> r == Some(WithTime(epic, subtasks))
    ensures !(SubtaskIds(epic) <= subtasks.Keys) ==> r.None?
  {
    var ids := SubtaskIds(epic);
    if |ids| > 0 {
      var min: Option<int> := None;
      var max: Option<int> := None;
      var sum := 0;
      var rest := ids;
      while rest != {}
        invariant rest <= ids && ids - rest <= subtasks.Keys
        invariant Folded(ids - rest, subtasks, min, max, sum)
        decreases rest
      {
        Nonempty(rest);
        var id :| id in rest;
        if id !in subtasks {
          return None;  // `Subtask::getStartTime` on null
        }
        var subtask := subtasks[id];
        ghost var seen := ids - rest;
        assert ids - (rest - {id}) == seen + {id};
        var min', max' := min, max;
        if subtask.startTime != DEFAULT_START_TIME {
          var start := subtask.startTime.minute;
          var end := EndTime(subtask).minute;
          min' := if min.None? || start < min.value then Some(start) else min;
          max' := if max.None? || end > max.value then Some(end) else max;
        }
        FoldStep(seen, subtasks, id, min, max, sum, min', max');
        min, max, sum := min', max', sum + subtask.duration;
        rest := rest - {id};
      }
      assert ids - rest == ids;
      FoldedAtEnd(epic, subtasks, min, max, sum);
      if min.Some? {
        r := Some(epic.(duration := sum, startTime := At(min.value), kind := EpicOf(ids, At(max.value))));
        return;
      }
    }
    r := Some(epic.(duration := DEFAULT_DURATION, startTime := DEFAULT_START_TIME, kind := EpicOf(ids, DEFAULT_END_TIME)));
  }

  /** The getters of `Epic` after `updateTime` answer:
      "empty list" without subtasks; "no time intervals" for start and end
      (and a duration of 0) when none is timed; otherwise the earliest start,
      the latest end and the summed duration. */
  lemma RecomputedEpicGetters(epic: Task, subtasks: map<int, Task>)
    requires IsEpic(epic) && SubtaskIds(epic) <= subtasks.Keys
    ensures var e := WithTime(epic, subtasks);
      var ids := SubtaskIds(epic);
      && (ids == {} ==>
            GetDuration(e) == Failure(EmptySubtaskList) && GetStartTime(e) == Failure(EmptySubtaskList)
            && GetEndTime(e) == Failure(EmptySubtaskList))
      && (ids != {} && TimedIds(ids, subtasks) == {} ==>
            GetDuration(e) == Success(0) && GetStartTime(e) == Failure(NoTimeIntervals)
            && GetEndTime(e) == Failure(NoTimeIntervals))
      && (TimedIds(ids, subtasks) != {} ==>
            && GetDuration(e) == Success(SumDurations(ids, subtasks))
            && GetStartTime(e) == Success(At(SetMin(Starts(ids, subtasks))))
            && GetEndTime(e) == Success(At(SetMax(Ends(ids, subtasks)))))
  {
  }
}
