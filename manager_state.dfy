/** The state of `InMemoryTaskManager` as values, and what each of its
    operations does to that state: the three id-keyed maps of tasks,
    subtasks and epics, the id counter, the set of held interval buckets
    and the priority index. The class in module Manager holds these as
    fields and commits the results of the operations below. */
module ManagerState {
  import opened Wrappers
  import opened Tasks
  import opened Epics
  import opened Subtasks
  import opened Intervals
  import opened Priority
  import opened Aggregator
  import opened Schedule
  import opened Sets
  import History

  /** The exceptions the manager throws, by class. */
  datatype ManagerError =
    | BadInput          // ManagerTaskBadInputException
    | AlreadyExist      // ManagerTaskAlreadyExistException
    | NotFound          // ManagerTaskNotFoundException
    | TimeIntersection  // ManagerTaskTimeIntersectionException
    | Unspecific        // a plain ManagerTaskException
    | NullReference     // a NullPointerException raised inside the manager

  /** Each map stores its entities under their own ids, and holds the class
      its declared value type names. */
  predicate TaskMap(m: map<int, Task>) {
    forall k | k in m :: m[k].id == Some(k) && !IsEpic(m[k])
  }

  predicate SubtaskMap(m: map<int, Task>) {
    forall k | k in m :: m[k].id == Some(k) && IsSubtask(m[k])
  }

  predicate EpicMap(m: map<int, Task>) {
    forall k | k in m :: m[k].id == Some(k) && IsEpic(m[k])
  }

  /** The priority keys of the entities that `ks` names. */
  ghost function KeysOf(m: map<int, Task>, ks: set<int>): set<Key>
    requires ks <= m.Keys
  {
    set k | k in ks :: KeyOf(m[k])
  }

  /** An epic after `updateStatus` and then `updateTime`, when every id it
      names resolves. */
  ghost function Recomputed(epic: Task, subtasks: map<int, Task>): Task
    requires IsEpic(epic) && SubtaskIds(epic) <= subtasks.Keys
  {
    WithTime(epic.(status := EpicStatus(SubtaskIds(epic), subtasks)), subtasks)
  }

  /** The subtask `k` names, or null: `subtasks::get`. */
  function Lookup(m: map<int, Task>, k: int): Option<Task> {
    if k in m then Some(m[k]) else None
  }

  /** `new ArrayList<>(map.values())`: every value once, in the map's own
      (unspecified) key order, which `order` records. */
  method ValuesOf(m: map<int, Task>) returns (r: seq<Task>, ghost order: seq<int>)
    ensures History.NoDup(order) && forall k :: k in order <==> k in m
    ensures |r| == |order| && forall i | 0 <= i < |r| :: order[i] in m && r[i] == m[order[i]]
  {
    r, order := [], [];
    var rest := m.Keys;
    while rest != {}
      invariant rest <= m.Keys
      invariant History.NoDup(order) && forall k :: k in order <==> k in m && k !in rest
      invariant |r| == |order| && forall i | 0 <= i < |r| :: order[i] in m && r[i] == m[order[i]]
      decreases rest
    {
      Nonempty(rest);
      var k :| k in rest;
      r, order := r + [m[k]], order + [k];
      rest := rest - {k};
    }
  }

  /** `ids.stream().map(subtasks::get).collect(...)`: for every id once, in
      the set's own (unspecified) order, which `order` records, the subtask
      stored under it or null. */
  method LookupEach(ids: set<int>, m: map<int, Task>) returns (r: seq<Option<Task>>, ghost order: seq<int>)
    ensures History.NoDup(order) && forall k :: k in order <==> k in ids
    ensures |r| == |order| && forall i | 0 <= i < |r| :: r[i] == Lookup(m, order[i])
  {
    r, order := [], [];
    var rest := ids;
    while rest != {}
      invariant rest <= ids
      invariant History.NoDup(order) && forall k :: k in order <==> k in ids && k !in rest
      invariant |r| == |order| && forall i | 0 <= i < |r| :: r[i] == Lookup(m, order[i])
      decreases rest
    {
      Nonempty(rest);
      var k :| k in rest;
      r, order := r + [Lookup(m, k)], order + [k];
      rest := rest - {k};
    }
  }

  /** `claimIntervals`: takes every bucket of the item, or none when one of
      them is already held. */
  method Claim(held: set<int>, t: Task) returns (ok: bool, held': set<int>)
    requires !IsEpic(t)
    ensures ok <==> Buckets(t) !! held
    ensures held' == if ok then held + Buckets(t) else held
  {
    var keys := IntervalKeys(t);
    var i := 0;
    while i < |keys| && keys[i] !in held
      invariant 0 <= i <= |keys|
      invariant forall j | 0 <= j < i :: keys[j] !in held
    {
      i := i + 1;
    }
    if i == |keys| {
      var again := IntervalKeys(t);
      held' := held + set k | k in again;
      ok := true;
    } else {
      assert keys[i] in Buckets(t);
      held' := held;
      ok := false;
    }
  }

  /** `unclaimIntervals`: gives back every bucket of the item, held or not. */
  method Unclaim(held: set<int>, t: Task) returns (held': set<int>)
    requires !IsEpic(t)
    ensures held' == held - Buckets(t)
  {
    var keys := IntervalKeys(t);
    held' := held;
    for i := 0 to |keys|
      invariant held' == held - set k | k in keys[..i]
    {
      assert keys[..i + 1] == keys[..i] + [keys[i]];
      held' := held' - {keys[i]};
    }
    assert keys[..|keys|] == keys;
  }

  /** `values().forEach(this::unclaimIntervals)`. */
  method UnclaimEach(held: set<int>, m: map<int, Task>) returns (r: set<int>)
    requires forall k | k in m :: !IsEpic(m[k])
    ensures r == Released(held, m, m.Keys)
  {
    r := held;
    var rest := m.Keys;
    ReleasedNone(held, m);
    assert m.Keys - rest == {};
    while rest != {}
      invariant rest <= m.Keys
      invariant r == Released(held, m, m.Keys - rest)
      decreases rest
    {
      Nonempty(rest);
      var k :| k in rest;
      ReleasedStep(held, m, m.Keys - rest, k);
      r := Unclaim(r, m[k]);
      assert m.Keys - (rest - {k}) == (m.Keys - rest) + {k};
      rest := rest - {k};
    }
  }

  /** `values().forEach(sortedTasks::remove)`: the item of every entry
      of `m` leaves the index, one `TreeSet.remove` at a time. */
  method RemoveEach(s: seq<Task>, m: map<int, Task>) returns (r: seq<Task>)
    requires Sorted(s)
    ensures Sorted(r)
    ensures r == Without(s, KeysOf(m, m.Keys))
  {
    r := s;
    var rest := m.Keys;
    WithoutNoMatch(s, {});
    assert KeysOf(m, m.Keys - rest) == {};
    while rest != {}
      invariant rest <= m.Keys
      invariant Sorted(r)
      invariant r == Without(s, KeysOf(m, m.Keys - rest))
      decreases rest
    {
      Nonempty(rest);
      var k :| k in rest;
      RemoveStep(s, r, m, rest, k);
      r := Remove(r, m[k]);
      rest := rest - {k};
    }
    assert m.Keys - rest == m.Keys;
  }

  lemma RemoveStep(s: seq<Task>, r: seq<Task>, m: map<int, Task>, rest: set<int>, k: int)
    requires rest <= m.Keys && k in rest
    requires r == Without(s, KeysOf(m, m.Keys - rest))
    ensures Remove(r, m[k]) == Without(s, KeysOf(m, m.Keys - (rest - {k})))
  {
    ghost var done := m.Keys - rest;
    WithoutWithout(s, KeysOf(m, done), {KeyOf(m[k])});
    assert m.Keys - (rest - {k}) == done + {k};
    assert KeysOf(m, done + {k}) == KeysOf(m, done) + {KeyOf(m[k])};
  }

  /** What `updateStatus(epic)` then `updateTime(epic)` leave in the epic map
      `epics'` for the stored epic `eid`, given the map `epics` before: the
      recomputed epic when every id it names resolves; otherwise a null
      dereference, after which only the status may have changed. */
  ghost predicate Refreshed(epics: map<int, Task>, epics': map<int, Task>, eid: int,
                            subtasks: map<int, Task>, r: Outcome<ManagerError>)
    requires eid in epics && IsEpic(epics[eid])
  {
    var e := epics[eid];
    if SubtaskIds(e) <= subtasks.Keys then
      r == Pass && epics' == epics[eid := Recomputed(e, subtasks)]
    else
      r == Fail(NullReference) && (epics' == epics || epics' == epics[eid := e.(status := IN_PROGRESS)])
  }

  /** A recomputed epic is still the epic stored under its id. */
  lemma RecomputedKeepsIdentity(epics: map<int, Task>, epics': map<int, Task>, eid: int,
                                subtasks: map<int, Task>, r: Outcome<ManagerError>)
    requires EpicMap(epics) && eid in epics && Refreshed(epics, epics', eid, subtasks, r)
    ensures EpicMap(epics') && epics'.Keys == epics.Keys
  {
    var e := epics[eid];
    if SubtaskIds(e) <= subtasks.Keys {
      assert Recomputed(e, subtasks).id == e.id;
    }
  }

  /** `epic.getSubtaskIds().forEach(subtasks::remove)`. */
  method RemoveKeys(m: map<int, Task>, ks: set<int>) returns (r: map<int, Task>)
    ensures r == m - ks
  {
    r := m;
    var rest := ks;
    while rest != {}
      invariant rest <= ks
      invariant r == m - (ks - rest)
      decreases rest
    {
      Nonempty(rest);
      var k :| k in rest;
      assert ks - (rest - {k}) == (ks - rest) + {k};
      r := r - {k};
      rest := rest - {k};
    }
    assert ks - rest == ks;
  }

  /** `clearSubtaskIds()` then `setStatus(NEW)` on every epic. */
  method ResetEpics(m: map<int, Task>) returns (r: map<int, Task>)
    requires EpicMap(m)
    ensures EpicMap(r) && r.Keys == m.Keys
    ensures forall k | k in m :: r[k] == ClearSubtaskIds(m[k]).(status := NEW)
  {
    r := m;
    var rest := m.Keys;
    while rest != {}
      invariant rest <= m.Keys && r.Keys == m.Keys
      invariant forall k | k in m :: r[k] == if k in rest then m[k] else ClearSubtaskIds(m[k]).(status := NEW)
      decreases rest
    {
      Nonempty(rest);
      var k :| k in rest;
      r := r[k := ClearSubtaskIds(r[k]).(status := NEW)];
      rest := rest - {k};
    }
  }

  /** `updateStatus(epic)` and then `updateTime(epic)` for the stored epic
      `eid`, each writing the epic back into the epic map. */
  method RefreshEpic(epics: map<int, Task>, subtasks: map<int, Task>, eid: int)
    returns (epics': map<int, Task>, r: Outcome<ManagerError>)
    requires eid in epics && IsEpic(epics[eid])
    ensures Refreshed(epics, epics', eid, subtasks, r)
  {
    var s := UpdateStatus(epics[eid], subtasks);
    if s.None? {
      return epics, Fail(NullReference);
    }
    epics' := epics[eid := s.value];
    var t := UpdateTime(s.value, subtasks);
    if t.None? {
      return epics', Fail(NullReference);
    }
    assert epics'[eid := t.value] == epics[eid := t.value];
    epics' := epics'[eid := t.value];
    r := Pass;
  }

  /** What `createSubtask` does to the manager's state, given as values
      before (`subtasks`, `epics`, the counter `n`, the buckets `held`, the
      index `sorted`) and after (the primed names): it refuses null, an id
      the subtask map holds, an epic id the epic map does not hold, and a
      time that meets a held bucket, in that order and without changing
      anything; otherwise the subtask takes the id `n`, its buckets and a
      place in the index, its epic records it, and the epic is recomputed,
      which dereferences a null when the epic names a missing subtask. */
  ghost predicate SubtaskCreated(subtasks: map<int, Task>, epics: map<int, Task>, n: int, held: set<int>,
                                 sorted: seq<Task>, subtask: Option<Task>,
                                 subtasks': map<int, Task>, epics': map<int, Task>, n': int, held': set<int>,
                                 sorted': seq<Task>, r: Result<int, ManagerError>)
    requires EpicMap(epics) && (subtask.Some? ==> IsSubtask(subtask.value))
  {
    var same := subtasks' == subtasks && epics' == epics && n' == n && held' == held && sorted' == sorted;
    if subtask.None? then r == Failure(BadInput) && same
    else
      var t := subtask.value;
      if t.id.Some? && t.id.value in subtasks then r == Failure(AlreadyExist) && same
      else if GetEpicId(t) !in epics then r == Failure(Unspecific) && same
      else if !(Buckets(t) !! held) then r == Failure(TimeIntersection) && same
      else
        var eid, t' := GetEpicId(t), SetId(t, n);
        && n' == n + 1 && subtasks' == subtasks[n := t'] && held' == held + Buckets(t)
        && sorted' == Insert(sorted, t')
        && (r == Success(n) || r == Failure(NullReference))
        && Refreshed(epics[eid := AddSubtaskId(epics[eid], n)], epics', eid, subtasks',
                     if r.Success? then Pass else Fail(NullReference))
  }

  /** `createSubtask` on the manager's state as values. */
  method CreateSubtaskIn(tasks: map<int, Task>, subtasks: map<int, Task>, epics: map<int, Task>, n: int,
                         held: set<int>, sorted: seq<Task>, subtask: Option<Task>)
    returns (subtasks': map<int, Task>, epics': map<int, Task>, n': int, held': set<int>,
             sorted': seq<Task>, r: Result<int, ManagerError>)
    requires SubtaskMap(subtasks) && EpicMap(epics) && Sorted(sorted)
    requires subtask.Some? ==> IsSubtask(subtask.value)
    ensures SubtaskCreated(subtasks, epics, n, held, sorted, subtask, subtasks', epics', n', held', sorted', r)
    ensures SubtaskMap(subtasks') && EpicMap(epics') && Sorted(sorted') && epics'.Keys == epics.Keys
    ensures ConsistentState(tasks, subtasks, epics, n, held) ==> ConsistentState(tasks, subtasks', epics', n', held')
  {
    subtasks', epics', n', held', sorted' := subtasks, epics, n, held, sorted;
    if subtask.None? {
      return subtasks', epics', n', held', sorted', Failure(BadInput);
    }
    var t := subtask.value;
    if t.id.Some? && t.id.value in subtasks {
      return subtasks', epics', n', held', sorted', Failure(AlreadyExist);
    }
    var eid := GetEpicId(t);
    if eid !in epics {
      return subtasks', epics', n', held', sorted', Failure(Unspecific);
    }
    var ok;
    ok, held' := Claim(held, t);
    if !ok {
      return subtasks', epics', n', held', sorted', Failure(TimeIntersection);
    }
    var t' := SetId(t, n);
    InsertKeepsOrder(sorted, t');
    subtasks', sorted', n' := subtasks[n := t'], Insert(sorted, t'), n + 1;
    var linked := epics[eid := AddSubtaskId(epics[eid], n)];
    var o;
    epics', o := RefreshEpic(linked, subtasks', eid);
    RecomputedKeepsIdentity(linked, epics', eid, subtasks', o);
    r := if o.Pass? then Success(n) else Failure(NullReference);
    if ConsistentState(tasks, subtasks, epics, n, held) {
      assert Buckets(t') == Buckets(t);
      AddSubtaskKeeps(tasks, subtasks, epics, epics', n, held, t');
    }
  }

  /** `Consistent` over values: the ids of the three maps are below the
      counter and pairwise distinct, and no two scheduled items overlap. */
  ghost predicate ConsistentState(tasks: map<int, Task>, subtasks: map<int, Task>, epics: map<int, Task>,
                                  sequenceId: int, intervals: set<int>) {
    && 0 <= sequenceId
    && (forall k | k in tasks :: 0 <= k < sequenceId)
    && (forall k | k in subtasks :: 0 <= k < sequenceId)
    && (forall k | k in epics :: 0 <= k < sequenceId)
    && tasks.Keys !! subtasks.Keys && tasks.Keys !! epics.Keys && subtasks.Keys !! epics.Keys
    && NoOverlap(tasks + subtasks, intervals)
  }

  /** Items that a larger map keeps apart are kept apart in any part of it. */
  lemma SubmapKeeps(all: map<int, Task>, part: map<int, Task>, held: set<int>)
    requires NoOverlap(all, held)
    requires forall k | k in part :: k in all && all[k] == part[k]
    ensures NoOverlap(part, held)
  {
  }

  /** Releasing all of `m` keeps the items of `other` held and apart. */
  lemma ReleaseAllKeeps(all: map<int, Task>, m: map<int, Task>, other: map<int, Task>, held: set<int>)
    requires NoOverlap(all, held) && m.Keys !! other.Keys
    requires forall k | k in m :: k in all && all[k] == m[k]
    requires forall k | k in other :: k in all && all[k] == other[k]
    ensures NoOverlap(other, Released(held, m, m.Keys))
  {
    forall k | k in other ensures Buckets(other[k]) <= Released(held, m, m.Keys) {
      forall j | j in m ensures Buckets(other[k]) !! Buckets(m[j]) {
        assert all[j] == m[j] && all[k] == other[k] && j != k;
      }
    }
  }

  /** A new task under the counter's id, with buckets nobody holds. */
  lemma AddTaskKeeps(tasks: map<int, Task>, subtasks: map<int, Task>, epics: map<int, Task>,
                     n: int, held: set<int>, t: Task)
    requires ConsistentState(tasks, subtasks, epics, n, held) && Buckets(t) !! held
    ensures n !in tasks && n !in subtasks && n !in epics
    ensures ConsistentState(tasks[n := t], subtasks, epics, n + 1, held + Buckets(t))
  {
    ClaimKeeps(tasks + subtasks, held, n, t);
    assert tasks[n := t] + subtasks == (tasks + subtasks)[n := t];
  }

  /** A new subtask under the counter's id; its epic changes, not the epic ids. */
  lemma AddSubtaskKeeps(tasks: map<int, Task>, subtasks: map<int, Task>, epics: map<int, Task>,
                        epics': map<int, Task>, n: int, held: set<int>, t: Task)
    requires ConsistentState(tasks, subtasks, epics, n, held) && Buckets(t) !! held
    requires epics'.Keys == epics.Keys
    ensures n !in tasks && n !in subtasks && n !in epics
    ensures ConsistentState(tasks, subtasks[n := t], epics', n + 1, held + Buckets(t))
  {
    ClaimKeeps(tasks + subtasks, held, n, t);
    assert tasks + subtasks[n := t] == (tasks + subtasks)[n := t];
  }

  /** A new epic under the counter's id; epics hold no buckets. */
  lemma AddEpicKeeps(tasks: map<int, Task>, subtasks: map<int, Task>, epics: map<int, Task>,
                     n: int, held: set<int>, e: Task)
    requires ConsistentState(tasks, subtasks, epics, n, held)
    ensures n !in tasks && n !in subtasks && n !in epics
    ensures ConsistentState(tasks, subtasks, epics[n := e], n + 1, held)
  {
  }

  /** Epics may change freely as long as their ids stay. */
  lemma EpicsKeep(tasks: map<int, Task>, subtasks: map<int, Task>, epics: map<int, Task>,
                  epics': map<int, Task>, n: int, held: set<int>)
    requires ConsistentState(tasks, subtasks, epics, n, held) && epics'.Keys == epics.Keys
    ensures ConsistentState(tasks, subtasks, epics', n, held)
  {
  }

  /** A stored task replaced by one whose buckets meet nothing else held. */
  lemma ReplaceTaskKeeps(tasks: map<int, Task>, subtasks: map<int, Task>, epics: map<int, Task>,
                         n: int, held: set<int>, k: int, t: Task)
    requires ConsistentState(tasks, subtasks, epics, n, held) && k in tasks
    requires Buckets(t) !! (held - Buckets(tasks[k]))
    ensures ConsistentState(tasks[k := t], subtasks, epics, n, held - Buckets(tasks[k]) + Buckets(t))
  {
    ReplaceKeeps(tasks + subtasks, held, k, t);
    assert tasks[k := t] + subtasks == (tasks + subtasks)[k := t];
  }

  lemma ReplaceSubtaskKeeps(tasks: map<int, Task>, subtasks: map<int, Task>, epics: map<int, Task>,
                            epics': map<int, Task>, n: int, held: set<int>, k: int, t: Task)
    requires ConsistentState(tasks, subtasks, epics, n, held) && k in subtasks
    requires Buckets(t) !! (held - Buckets(subtasks[k])) && epics'.Keys == epics.Keys
    ensures ConsistentState(tasks, subtasks[k := t], epics', n, held - Buckets(subtasks[k]) + Buckets(t))
  {
    ReplaceKeeps(tasks + subtasks, held, k, t);
    assert tasks + subtasks[k := t] == (tasks + subtasks)[k := t];
  }

  /** A failed update claims the stored task's buckets back: nothing changes. */
  lemma ReclaimTaskRestores(tasks: map<int, Task>, subtasks: map<int, Task>, epics: map<int, Task>,
                            n: int, held: set<int>, k: int)
    requires ConsistentState(tasks, subtasks, epics, n, held) && k in tasks
    ensures held - Buckets(tasks[k]) + Buckets(tasks[k]) == held
  {
    ReclaimRestores(tasks + subtasks, held, k);
  }

  lemma ReclaimSubtaskRestores(tasks: map<int, Task>, subtasks: map<int, Task>, epics: map<int, Task>,
                               n: int, held: set<int>, k: int)
    requires ConsistentState(tasks, subtasks, epics, n, held) && k in subtasks
    ensures held - Buckets(subtasks[k]) + Buckets(subtasks[k]) == held
  {
    ReclaimRestores(tasks + subtasks, held, k);
  }

  lemma RemoveTaskKeeps(tasks: map<int, Task>, subtasks: map<int, Task>, epics: map<int, Task>,
                        n: int, held: set<int>, k: int)
    requires ConsistentState(tasks, subtasks, epics, n, held) && k in tasks
    ensures ConsistentState(tasks - {k}, subtasks, epics, n, held - Buckets(tasks[k]))
  {
    ReleaseKeeps(tasks + subtasks, held, k);
    assert (tasks - {k}) + subtasks == (tasks + subtasks) - {k};
  }

  lemma RemoveSubtaskKeeps(tasks: map<int, Task>, subtasks: map<int, Task>, epics: map<int, Task>,
                           epics': map<int, Task>, n: int, held: set<int>, k: int)
    requires ConsistentState(tasks, subtasks, epics, n, held) && k in subtasks && epics'.Keys == epics.Keys
    ensures ConsistentState(tasks, subtasks - {k}, epics', n, held - Buckets(subtasks[k]))
  {
    ReleaseKeeps(tasks + subtasks, held, k);
    assert tasks + (subtasks - {k}) == (tasks + subtasks) - {k};
  }

  lemma ClearTasksKeeps(tasks: map<int, Task>, subtasks: map<int, Task>, epics: map<int, Task>,
                        n: int, held: set<int>)
    requires ConsistentState(tasks, subtasks, epics, n, held)
    ensures ConsistentState(map[], subtasks, epics, n, Released(held, tasks, tasks.Keys))
  {
    ReleaseAllKeeps(tasks + subtasks, tasks, subtasks, held);
    SubmapKeeps(subtasks, map[] + subtasks, Released(held, tasks, tasks.Keys));
  }

  lemma ClearSubtasksKeeps(tasks: map<int, Task>, subtasks: map<int, Task>, epics: map<int, Task>,
                           epics': map<int, Task>, n: int, held: set<int>)
    requires ConsistentState(tasks, subtasks, epics, n, held) && epics'.Keys <= epics.Keys
    ensures ConsistentState(tasks, map[], epics', n, Released(held, subtasks, subtasks.Keys))
  {
    ReleaseAllKeeps(tasks + subtasks, subtasks, tasks, held);
    SubmapKeeps(tasks, tasks + map[], Released(held, subtasks, subtasks.Keys));
  }

  /** `removeEpic` drops subtasks without releasing their buckets. */
  lemma RemoveEpicKeeps(tasks: map<int, Task>, subtasks: map<int, Task>, epics: map<int, Task>,
                        n: int, held: set<int>, k: int, ids: set<int>)
    requires ConsistentState(tasks, subtasks, epics, n, held)
    ensures ConsistentState(tasks, subtasks - ids, epics - {k}, n, held)
  {
    SubmapKeeps(tasks + subtasks, tasks + (subtasks - ids), held);
  }

  /** What `updateSubtask` does to the state: null and an id the subtask map
      does not hold change nothing; otherwise the stored subtask's buckets
      are released, and when the new time meets a held bucket they are
      claimed again and nothing else changes; otherwise the new version
      replaces the stored one in the map, the buckets and the index, and the
      epic that the STORED version names is recomputed, which dereferences a
      null when the epic map does not hold it or when it names a missing
      subtask. */
  ghost predicate SubtaskUpdated(subtasks: map<int, Task>, epics: map<int, Task>, held: set<int>,
                                 sorted: seq<Task>, subtask: Option<Task>,
                                 subtasks': map<int, Task>, epics': map<int, Task>, held': set<int>,
                                 sorted': seq<Task>, r: Outcome<ManagerError>)
    requires SubtaskMap(subtasks) && EpicMap(epics)
  {
    var same := subtasks' == subtasks && epics' == epics && sorted' == sorted;
    if subtask.None? then r == Fail(BadInput) && same && held' == held
    else
      var t := subtask.value;
      if !(t.id.Some? && t.id.value in subtasks) then r == Fail(NotFound) && same && held' == held
      else
        var k := t.id.value;
        var e := subtasks[k];
        var free := held - Buckets(e);
        var eid := GetEpicId(e);
        if !(Buckets(t) !! free) then r == Fail(Unspecific) && same && held' == free + Buckets(e)
        else
          && held' == free + Buckets(t) && subtasks' == subtasks[k := t]
          && sorted' == Insert(Remove(sorted, e), t)
          && if eid in epics then Refreshed(epics, epics', eid, subtasks', r)
             else r == Fail(NullReference) && epics' == epics
  }

  /** `updateSubtask` on the state as values. A failed update gives back
      exactly the buckets it released, so the held set is as before. */
  method UpdateSubtaskIn(tasks: map<int, Task>, subtasks: map<int, Task>, epics: map<int, Task>, n: int,
                         held: set<int>, sorted: seq<Task>, subtask: Option<Task>)
    returns (subtasks': map<int, Task>, epics': map<int, Task>, held': set<int>,
             sorted': seq<Task>, r: Outcome<ManagerError>)
    requires SubtaskMap(subtasks) && EpicMap(epics) && Sorted(sorted)
    requires subtask.Some? ==> IsSubtask(subtask.value)
    ensures SubtaskUpdated(subtasks, epics, held, sorted, subtask, subtasks', epics', held', sorted', r)
    ensures SubtaskMap(subtasks') && EpicMap(epics') && Sorted(sorted') && epics'.Keys == epics.Keys
    ensures ConsistentState(tasks, subtasks, epics, n, held) ==> ConsistentState(tasks, subtasks', epics', n, held')
    ensures ConsistentState(tasks, subtasks, epics, n, held) && r != Pass && r != Fail(NullReference) ==>
              held' == held
  {
    subtasks', epics', held', sorted' := subtasks, epics, held, sorted;
    if subtask.None? {
      return subtasks', epics', held', sorted', Fail(BadInput);
    }
    var t := subtask.value;
    if !(t.id.Some? && t.id.value in subtasks) {
      return subtasks', epics', held', sorted', Fail(NotFound);
    }
    var id := t.id.value;
    var existing := subtasks[id];
    var free := Unclaim(held, existing);
    var ok;
    ok, held' := Claim(free, t);
    if !ok {
      ok, held' := Claim(free, existing);
      if ConsistentState(tasks, subtasks, epics, n, held) {
        ReclaimSubtaskRestores(tasks, subtasks, epics, n, held, id);
      }
      return subtasks', epics', held', sorted', Fail(Unspecific);
    }
    var eid := GetEpicId(existing);
    InsertKeepsOrder(Remove(sorted, existing), t);
    subtasks', sorted' := subtasks[id := t], Insert(Remove(sorted, existing), t);
    if eid !in epics {
      r := Fail(NullReference);  // `updateStatus(null)`
    } else {
      epics', r := RefreshEpic(epics, subtasks', eid);
      RecomputedKeepsIdentity(epics, epics', eid, subtasks', r);
    }
    if ConsistentState(tasks, subtasks, epics, n, held) {
      ReplaceSubtaskKeeps(tasks, subtasks, epics, epics', n, held, id, t);
    }
  }

  /** What `removeSubtask` does to the state: null and an id the subtask map
      does not hold change nothing; otherwise the subtask's buckets are
      released and, when the epic map does not hold its epic, a null is
      dereferenced with nothing else changed; otherwise the subtask leaves
      its epic, the map and the index, and the epic is recomputed. */
  ghost predicate SubtaskRemoved(subtasks: map<int, Task>, epics: map<int, Task>, held: set<int>,
                                 sorted: seq<Task>, id: Option<int>,
                                 subtasks': map<int, Task>, epics': map<int, Task>, held': set<int>,
                                 sorted': seq<Task>, r: Outcome<ManagerError>)
    requires SubtaskMap(subtasks) && EpicMap(epics)
  {
    var same := subtasks' == subtasks && epics' == epics && sorted' == sorted;
    if !(id.Some? && id.value in subtasks) then r == Pass && same && held' == held
    else
      var k := id.value;
      var s := subtasks[k];
      var eid := GetEpicId(s);
      if eid !in epics then r == Fail(NullReference) && same && held' == held - Buckets(s)
      else
        && held' == held - Buckets(s) && subtasks' == subtasks - {k} && sorted' == Remove(sorted, s)
        && Refreshed(epics[eid := RemoveSubtaskId(epics[eid], k)], epics', eid, subtasks', r)
  }

  /** Whether `removeSubtask(id)` reaches the history: it does once the
      subtask and its epic are found. */
  predicate ReachesEpic(subtasks: map<int, Task>, epics: map<int, Task>, id: Option<int>)
    requires SubtaskMap(subtasks)
  {
    id.Some? && id.value in subtasks && var k := id.value; GetEpicId(subtasks[k]) in epics
  }

  /** `removeSubtask` on the state as values. Consistency is kept except
      where the epic is missing: then the buckets are gone and the subtask
      is still stored. */
  method RemoveSubtaskIn(tasks: map<int, Task>, subtasks: map<int, Task>, epics: map<int, Task>, n: int,
                         held: set<int>, sorted: seq<Task>, id: Option<int>)
    returns (subtasks': map<int, Task>, epics': map<int, Task>, held': set<int>,
             sorted': seq<Task>, r: Outcome<ManagerError>)
    requires SubtaskMap(subtasks) && EpicMap(epics) && Sorted(sorted)
    ensures SubtaskRemoved(subtasks, epics, held, sorted, id, subtasks', epics', held', sorted', r)
    ensures SubtaskMap(subtasks') && EpicMap(epics') && Sorted(sorted') && epics'.Keys == epics.Keys
    ensures ConsistentState(tasks, subtasks, epics, n, held) && (ReachesEpic(subtasks, epics, id) || r == Pass) ==>
              ConsistentState(tasks, subtasks', epics', n, held')
  {
    subtasks', epics', held', sorted' := subtasks, epics, held, sorted;
    if id.None? || id.value !in subtasks {
      return subtasks', epics', held', sorted', Pass;
    }
    var k := id.value;
    var s := subtasks[k];
    held' := Unclaim(held, s);
    var eid := GetEpicId(s);
    if eid !in epics {
      return subtasks', epics', held', sorted', Fail(NullReference);  // `epic.removeSubtaskId`
    }
    var unlinked := epics[eid := RemoveSubtaskId(epics[eid], k)];
    subtasks', sorted' := subtasks - {k}, Remove(sorted, s);
    epics', r := RefreshEpic(unlinked, subtasks', eid);
    RecomputedKeepsIdentity(unlinked, epics', eid, subtasks', r);
    if ConsistentState(tasks, subtasks, epics, n, held) {
      RemoveSubtaskKeeps(tasks, subtasks, epics, epics', n, held, k);
    }
  }

  /** What `clearSubtasks` does besides the history: every subtask leaves
      the index and gives back its buckets, the subtask map is emptied, and
      every epic loses its subtask ids and returns to NEW. */
  ghost predicate SubtasksCleared(subtasks: map<int, Task>, epics: map<int, Task>, held: set<int>,
                                  sorted: seq<Task>, subtasks': map<int, Task>, epics': map<int, Task>,
                                  held': set<int>, sorted': seq<Task>)
    requires EpicMap(epics)
  {
    && subtasks' == map[] && held' == Released(held, subtasks, subtasks.Keys)
    && sorted' == Without(sorted, KeysOf(subtasks, subtasks.Keys))
    && epics'.Keys == epics.Keys
    && forall k | k in epics :: epics'[k] == ClearSubtaskIds(epics[k]).(status := NEW)
  }

  /** The part of `clearSubtasks` and `clearEpics` on the priority index and
      the buckets: every subtask leaves the index and gives back its
      buckets. Consistency holds of the state with the subtask map emptied
      and with any epic map whose ids are among the old ones. */
  method DropSubtasks(tasks: map<int, Task>, subtasks: map<int, Task>, epics: map<int, Task>, n: int,
                      held: set<int>, sorted: seq<Task>, epics': map<int, Task>)
    returns (held': set<int>, sorted': seq<Task>)
    requires SubtaskMap(subtasks) && Sorted(sorted)
    ensures sorted' == Without(sorted, KeysOf(subtasks, subtasks.Keys)) && Sorted(sorted')
    ensures held' == Released(held, subtasks, subtasks.Keys)
    ensures ConsistentState(tasks, subtasks, epics, n, held) && epics'.Keys <= epics.Keys ==>
              ConsistentState(tasks, map[], epics', n, held')
  {
    sorted' := RemoveEach(sorted, subtasks);
    held' := UnclaimEach(held, subtasks);
    if ConsistentState(tasks, subtasks, epics, n, held) && epics'.Keys <= epics.Keys {
      ClearSubtasksKeeps(tasks, subtasks, epics, epics', n, held);
    }
  }

  /** The part of `removeEpic` on the maps: the subtasks the epic names and
      the epic itself leave their maps. */
  method DropEpic(tasks: map<int, Task>, subtasks: map<int, Task>, epics: map<int, Task>, n: int,
                  held: set<int>, k: int)
    returns (subtasks': map<int, Task>, epics': map<int, Task>)
    requires SubtaskMap(subtasks) && EpicMap(epics) && k in epics
    ensures subtasks' == subtasks - SubtaskIds(epics[k]) && epics' == epics - {k}
    ensures SubtaskMap(subtasks') && EpicMap(epics')
    ensures ConsistentState(tasks, subtasks, epics, n, held) ==> ConsistentState(tasks, subtasks', epics', n, held)
  {
    subtasks' := RemoveKeys(subtasks, SubtaskIds(epics[k]));
    epics' := epics - {k};
    if ConsistentState(tasks, subtasks, epics, n, held) {
      RemoveEpicKeeps(tasks, subtasks, epics, n, held, k, SubtaskIds(epics[k]));
    }
  }
}
