/** The priority index of `InMemoryTaskManager`: a `TreeSet` under
    TASK_COMPARATOR, which orders by start time and then by id. It is
    modelled as the sequence the set iterates, kept strictly ascending, so two
    items with one (start, id) key are one element to it. */
module Priority {
  import opened Wrappers
  import opened Tasks
  import opened Epics

  datatype Key = Key(start: Time, id: int)

  /** TASK_COMPARATOR's strict order. */
  predicate KeyLess(a: Key, b: Key) {
    TimeBefore(a.start, b.start) || (a.start == b.start && a.id < b.id)
  }

  lemma KeyLessIsStrictTotalOrder(a: Key, b: Key, c: Key)
    ensures !KeyLess(a, a)
    ensures KeyLess(a, b) ==> !KeyLess(b, a)
    ensures KeyLess(a, b) && KeyLess(b, c) ==> KeyLess(a, c)
    ensures a != b ==> KeyLess(a, b) || KeyLess(b, a)
  {
  }

  /** What the comparator can read without throwing: an id, and a start time
      that is a plain field (an epic's getter may throw). */
  predicate Indexable(t: Task) {
    t.id.Some? && !IsEpic(t)
  }

  /** The comparator's key of an item (an absent id is never compared). */
  function KeyOf(t: Task): Key {
    Key(t.startTime, if t.id.Some? then t.id.value else 0)
  }

  predicate Sorted(s: seq<Task>) {
    && (forall i | 0 <= i < |s| :: Indexable(s[i]))
    && (forall i, j | 0 <= i < j < |s| :: KeyLess(KeyOf(s[i]), KeyOf(s[j])))
  }

  predicate HasKey(s: seq<Task>, k: Key) {
    exists i | 0 <= i < |s| :: KeyOf(s[i]) == k
  }

  /** Prepending an item that precedes everything keeps the order. */
  lemma SortedCons(x: Task, s: seq<Task>)
    requires Indexable(x) && Sorted(s)
    requires forall y | y in s :: KeyLess(KeyOf(x), KeyOf(y))
    ensures Sorted([x] + s)
  {
    var r := [x] + s;
    forall i, j | 0 <= i < j < |r| ensures KeyLess(KeyOf(r[i]), KeyOf(r[j])) {
      if i > 0 {
        assert r[i] == s[i - 1] && r[j] == s[j - 1];
      } else {
        assert r[j] == s[j - 1];
        assert r[j] in s;
      }
    }
  }

  /** `TreeSet.add`: an item whose key is already present is not added. */
  function Insert(s: seq<Task>, t: Task): seq<Task> {
    if s == [] then [t]
    else if KeyLess(KeyOf(t), KeyOf(s[0])) then [t] + s
    else if KeyOf(t) == KeyOf(s[0]) then s
    else [s[0]] + Insert(s[1..], t)
  }

  lemma SortedTail(s: seq<Task>)
    requires Sorted(s) && s != []
    ensures Sorted(s[1..])
  {
    var tail := s[1..];
    forall i, j | 0 <= i < j < |tail| ensures KeyLess(KeyOf(tail[i]), KeyOf(tail[j])) {
      assert tail[i] == s[i + 1] && tail[j] == s[j + 1];
    }
  }

  lemma HasKeyTail(s: seq<Task>, k: Key)
    requires s != [] && KeyOf(s[0]) != k
    ensures HasKey(s, k) <==> HasKey(s[1..], k)
  {
    if HasKey(s, k) {
      var i :| 0 <= i < |s| && KeyOf(s[i]) == k;
      assert s[1..][i - 1] == s[i];
    }
    if HasKey(s[1..], k) {
      var i :| 0 <= i < |s[1..]| && KeyOf(s[1..][i]) == k;
      assert s[i + 1] == s[1..][i];
    }
  }

  /** Adding to the index adds the item exactly when no element has its key,
      and otherwise leaves the index as it was. */
  lemma {:induction false} InsertAddsNewKey(s: seq<Task>, t: Task)
    requires Sorted(s) && Indexable(t)
    ensures HasKey(s, KeyOf(t)) ==> Insert(s, t) == s
    ensures !HasKey(s, KeyOf(t)) ==> multiset(Insert(s, t)) == multiset(s) + multiset{t}
  {
    if s == [] {
    } else if KeyLess(KeyOf(t), KeyOf(s[0])) {
      forall i | 0 <= i < |s| ensures KeyOf(s[i]) != KeyOf(t) {
        if i > 0 { assert KeyLess(KeyOf(s[0]), KeyOf(s[i])); }
      }
    } else if KeyOf(t) == KeyOf(s[0]) {
    } else {
      SortedTail(s);
      HasKeyTail(s, KeyOf(t));
      InsertAddsNewKey(s[1..], t);
      assert s == [s[0]] + s[1..];
    }
  }

  /** Adding to the index keeps it ordered. */
  lemma {:induction false} InsertKeepsOrder(s: seq<Task>, t: Task)
    requires Sorted(s) && Indexable(t)
    ensures Sorted(Insert(s, t))
    ensures forall x :: x in Insert(s, t) <==> x in s || (x == t && !HasKey(s, KeyOf(t)))
  {
    InsertAddsNewKey(s, t);
    if s == [] {
    } else if KeyLess(KeyOf(t), KeyOf(s[0])) {
      forall y | y in s ensures KeyLess(KeyOf(t), KeyOf(y)) {
        var j :| 0 <= j < |s| && s[j] == y;
        if j > 0 { assert KeyLess(KeyOf(s[0]), KeyOf(s[j])); }
      }
      SortedCons(t, s);
    } else if KeyOf(t) == KeyOf(s[0]) {
    } else {
      var tail := s[1..];
      SortedTail(s);
      InsertKeepsOrder(tail, t);
      var r' := Insert(tail, t);
      forall x | x in r' ensures KeyLess(KeyOf(s[0]), KeyOf(x)) {
        if x != t {
          var j :| 0 <= j < |tail| && tail[j] == x;
          assert s[j + 1] == x;
        }
      }
      SortedCons(s[0], r');
      HasKeyTail(s, KeyOf(t));
      assert s == [s[0]] + tail;
    }
  }

  /** The elements of `s` whose keys are not in `keys`, in their order. */
  function Without(s: seq<Task>, keys: set<Key>): (r: seq<Task>)
    ensures forall x :: x in r <==> x in s && KeyOf(x) !in keys
    ensures |r| <= |s|
  {
    if s == [] then []
    else
      assert s == [s[0]] + s[1..];
      (if KeyOf(s[0]) in keys then [] else [s[0]]) + Without(s[1..], keys)
  }

  lemma {:induction false} WithoutKeepsOrder(s: seq<Task>, keys: set<Key>)
    requires Sorted(s)
    ensures Sorted(Without(s, keys))
  {
    if s != [] {
      SortedTail(s);
      WithoutKeepsOrder(s[1..], keys);
      var r' := Without(s[1..], keys);
      if KeyOf(s[0]) !in keys {
        forall x | x in r' ensures KeyLess(KeyOf(s[0]), KeyOf(x)) {
          var j :| 0 <= j < |s[1..]| && s[1..][j] == x;
          assert s[j + 1] == x;
        }
        SortedCons(s[0], r');
      }
    }
  }

  lemma {:induction false} WithoutNoMatch(s: seq<Task>, keys: set<Key>)
    requires forall i | 0 <= i < |s| :: KeyOf(s[i]) !in keys
    ensures Without(s, keys) == s
  {
    if s != [] {
      WithoutNoMatch(s[1..], keys);
      assert s == [s[0]] + s[1..];
    }
  }

  /** `TreeSet.remove`: drops the element the comparator finds equal. */
  function Remove(s: seq<Task>, t: Task): (r: seq<Task>)
    ensures forall x :: x in r <==> x in s && KeyOf(x) != KeyOf(t)
    ensures Sorted(s) ==> Sorted(r)
    ensures !HasKey(s, KeyOf(t)) ==> r == s
  {
    RemoveFacts(s, t);
    Without(s, {KeyOf(t)})
  }

  lemma RemoveFacts(s: seq<Task>, t: Task)
    ensures Sorted(s) ==> Sorted(Without(s, {KeyOf(t)}))
    ensures !HasKey(s, KeyOf(t)) ==> Without(s, {KeyOf(t)}) == s
  {
    if Sorted(s) {
      WithoutKeepsOrder(s, {KeyOf(t)});
    }
    if !HasKey(s, KeyOf(t)) {
      WithoutNoMatch(s, {KeyOf(t)});
    }
  }

  /** Removing key sets one after another removes their union. */
  lemma {:induction false} WithoutWithout(s: seq<Task>, a: set<Key>, b: set<Key>)
    ensures Without(Without(s, a), b) == Without(s, a + b)
  {
    if s != [] {
      WithoutWithout(s[1..], a, b);
      var w := Without(s[1..], a);
      if KeyOf(s[0]) !in a {
        assert Without(s, a) == [s[0]] + w;
        assert ([s[0]] + w)[1..] == w;
      } else {
        assert Without(s, a) == w;
      }
    }
  }

  /** In the ordered view, items without a start time come after all others. */
  lemma UnscheduledLast(s: seq<Task>, i: int, j: int)
    requires Sorted(s) && 0 <= i < j < |s| && s[i].startTime == DEFAULT_START_TIME
    ensures s[j].startTime == DEFAULT_START_TIME
  {
    assert KeyLess(KeyOf(s[i]), KeyOf(s[j]));
  }

  /** The scenario of the ordering test: tasks 1, 3, 4, 5 start at 19:13,
      +19h, +8h, +55h, and subtask 2 has no start; the index lists them as
      1, 4, 3, 5, 2. */
  lemma PriorityScenario()
    ensures var m := 28429633;
      var t1 := SetId(SetStartTime(NewTask(), At(m)), 1);
      var t2 := SetId(NewTask().(taskType := SUBTASK, kind := SubtaskOf(0)), 2);
      var t3 := SetId(SetStartTime(NewTask(), At(m + 19 * 60)), 3);
      var t4 := SetId(SetStartTime(NewTask(), At(m + 8 * 60)), 4);
      var t5 := SetId(SetStartTime(NewTask(), At(m + 55 * 60)), 5);
      Sorted([t1, t4, t3, t5, t2]) &&
      Insert(Insert(Insert(Insert(Insert([], t1), t2), t3), t4), t5) == [t1, t4, t3, t5, t2]
  {
    var m := 28429633;
    var t1 := SetId(SetStartTime(NewTask(), At(m)), 1);
    var t2 := SetId(NewTask().(taskType := SUBTASK, kind := SubtaskOf(0)), 2);
    var t3 := SetId(SetStartTime(NewTask(), At(m + 19 * 60)), 3);
    var t4 := SetId(SetStartTime(NewTask(), At(m + 8 * 60)), 4);
    var t5 := SetId(SetStartTime(NewTask(), At(m + 55 * 60)), 5);
    assert Insert([], t1) == [t1];
    assert Insert([t1], t2) == [t1, t2];
    assert Insert([t1, t2], t3) == [t1, t3, t2] by {
      assert Insert([t2], t3) == [t3, t2];
      assert [t1, t2][1..] == [t2];
    }
    assert Insert([t1, t3, t2], t4) == [t1, t4, t3, t2] by {
      assert [t1, t3, t2][1..] == [t3, t2];
      assert Insert([t3, t2], t4) == [t4, t3, t2];
    }
    assert Insert([t1, t4, t3, t2], t5) == [t1, t4, t3, t5, t2] by {
      assert [t1, t4, t3, t2][1..] == [t4, t3, t2];
      assert [t4, t3, t2][1..] == [t3, t2];
      assert [t3, t2][1..] == [t2];
      assert Insert([t2], t5) == [t5, t2];
      assert Insert([t3, t2], t5) == [t3, t5, t2];
      assert Insert([t4, t3, t2], t5) == [t4, t3, t5, t2];
    }
  }
}
