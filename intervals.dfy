/** The interval allocator's arithmetic (`InMemoryTaskManager.getIntervalKeys`):
    time is cut into 15-minute buckets, and a scheduled item occupies every
    bucket from the one holding its start to the one holding its end. The set
    of occupied buckets itself is a field of the manager (module Manager). */
module Intervals {
  import opened Wrappers
  import opened Tasks
  import opened Epics

  const INTERVAL_IN_MINUTES: int := 15

  /** The key `yyyy-MM-dd-HH-mm` of a minute rounded down to its quarter
      hour. Hours and days are whole numbers of quarter hours, so that key is
      one-to-one with the quarter-hour count below (floor division). */
  function BucketOf(minute: int): int {
    minute / INTERVAL_IN_MINUTES
  }

  predicate Timed(t: Task) {
    t.startTime.At?
  }

  function FirstBucket(t: Task): int
    requires Timed(t)
  {
    BucketOf(t.startTime.minute)
  }

  function LastBucket(t: Task): int
    requires Timed(t)
  {
    BucketOf(EndTime(t).minute)
  }

  /** The integers from `lo` through `hi`. */
  function Range(lo: int, hi: int): (r: set<int>)
    ensures forall k :: k in r <==> lo <= k <= hi
    decreases hi - lo
  {
    if lo > hi then {} else {lo} + Range(lo + 1, hi)
  }

  /** The buckets an item holds: none without a start time, otherwise the
      quarter hours from the start's through the end's. */
  function Buckets(t: Task): set<int> {
    if !Timed(t) then {} else Range(FirstBucket(t), LastBucket(t))
  }

  /** `getIntervalKeys`: walks a cursor from the start's quarter hour up to
      and including the end's, one key per quarter hour. */
  method IntervalKeys(t: Task) returns (keys: seq<int>)
    requires !IsEpic(t)
    ensures !Timed(t) ==> keys == []
    ensures Timed(t) ==> |keys| == if LastBucket(t) >= FirstBucket(t) then LastBucket(t) - FirstBucket(t) + 1 else 0
    ensures Timed(t) ==> forall i | 0 <= i < |keys| :: keys[i] == FirstBucket(t) + i
    ensures forall k :: k in keys <==> k in Buckets(t)
  {
    keys := [];
    var read := StartTimeOf(t);
    if read.Failure? {
      return;
    }
    var startTime := read.value;
    if startTime == DEFAULT_START_TIME {
      return;
    }
    var cursor := (startTime.minute / INTERVAL_IN_MINUTES) * INTERVAL_IN_MINUTES;
    var endTime := EndTime(t);
    var end := (endTime.minute / INTERVAL_IN_MINUTES) * INTERVAL_IN_MINUTES;
    ghost var first, last := FirstBucket(t), LastBucket(t);
    while cursor < end + INTERVAL_IN_MINUTES
      invariant cursor == (first + |keys|) * INTERVAL_IN_MINUTES
      invariant end == last * INTERVAL_IN_MINUTES
      invariant forall i | 0 <= i < |keys| :: keys[i] == first + i
      invariant |keys| <= if last >= first then last - first + 1 else 0
      decreases end + INTERVAL_IN_MINUTES - cursor
    {
      keys := keys + [cursor / INTERVAL_IN_MINUTES];
      cursor := cursor + INTERVAL_IN_MINUTES;
    }
    forall k | k in Buckets(t) ensures k in keys {
      assert keys[k - first] == k;
    }
  }

  /** A scheduled item of zero duration still holds the one bucket of its start. */
  lemma ZeroDurationHoldsOneBucket(t: Task)
    requires Timed(t) && t.duration == 0
    ensures Buckets(t) == {FirstBucket(t)}
  {
  }

  /** Two scheduled items of non-negative duration share a bucket exactly
      when neither ends in a quarter hour before the other starts. */
  lemma BucketsMeet(a: Task, b: Task)
    requires Timed(a) && Timed(b) && a.duration >= 0 && b.duration >= 0
    ensures Buckets(a) !! Buckets(b) <==> LastBucket(a) < FirstBucket(b) || LastBucket(b) < FirstBucket(a)
  {
    if !(LastBucket(a) < FirstBucket(b) || LastBucket(b) < FirstBucket(a)) {
      var k := if FirstBucket(a) < FirstBucket(b) then FirstBucket(b) else FirstBucket(a);
      assert k in Buckets(a) && k in Buckets(b);
    }
  }

  /** The scenario of the allocator test: at 2024-01-20T19:13 (minute
      28429633 counted from 1970-01-01T00:00) a 50-minute task holds the
      quarter hours 19:00 to 20:00; a 45-minute replacement, 19:00 to 19:45,
      fits once the old claim is released; a 5-minute task at 18:43, 18:30 to 18:45, fits beside it; and a
      55-minute task at 19:13 collides with what is held. */
  lemma AllocatorScenario()
    ensures var start := 28429633;
      var a := SetDuration(SetStartTime(NewTask(), At(start)), 50);
      var a' := SetDuration(SetStartTime(NewTask(), At(start)), 45);
      var c := SetDuration(SetStartTime(NewTask(), At(start - 30)), 5);
      var b := SetDuration(SetStartTime(NewTask(), At(start + 0)), 55);
      && Buckets(a) == {1895308, 1895309, 1895310, 1895311, 1895312}
      && Buckets(a') == {1895308, 1895309, 1895310, 1895311}
      && Buckets(c) == {1895306, 1895307}
      && Buckets(a') !! Buckets(c)
      && !(Buckets(b) !! (Buckets(a') + Buckets(c)))
      && Buckets(NewTask()) == {}
  {
    var start := 28429633;
    var a := SetDuration(SetStartTime(NewTask(), At(start)), 50);
    var a' := SetDuration(SetStartTime(NewTask(), At(start)), 45);
    var c := SetDuration(SetStartTime(NewTask(), At(start - 30)), 5);
    var b := SetDuration(SetStartTime(NewTask(), At(start + 0)), 55);
    assert FirstBucket(a) == 1895308 && LastBucket(a) == 1895312;
    assert FirstBucket(a') == 1895308 && LastBucket(a') == 1895311;
    assert FirstBucket(c) == 1895306 && LastBucket(c) == 1895307;
    assert 1895308 in Buckets(b);
  }
}
