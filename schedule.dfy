/** What the interval allocator of `InMemoryTaskManager` guarantees: every
    scheduled item (task or subtask) holds the 15-minute buckets its time
    covers, and no bucket is held by two items, so no two items overlap in
    time. Stated over values: `m` is the items by id, `held` the set of
    bucket keys the manager calls `intervals`. */
module Schedule {
  import opened Tasks
  import opened Intervals

  ghost predicate NoOverlap(m: map<int, Task>, held: set<int>) {
    && (forall k | k in m :: Buckets(m[k]) <= held)
    && (forall a, b | a in m && b in m && a != b :: Buckets(m[a]) !! Buckets(m[b]))
  }

  /** The buckets of `held` that none of the items named by `ks` covers:
      what releasing those items leaves. */
  ghost function Released(held: set<int>, m: map<int, Task>, ks: set<int>): set<int>
    requires ks <= m.Keys
  {
    set b | b in held && forall k | k in ks :: b !in Buckets(m[k])
  }

  /** Releasing one more item takes exactly its buckets away. */
  lemma ReleasedStep(held: set<int>, m: map<int, Task>, ks: set<int>, k: int)
    requires ks <= m.Keys && k in m
    ensures Released(held, m, ks + {k}) == Released(held, m, ks) - Buckets(m[k])
  {
  }

  lemma ReleasedNone(held: set<int>, m: map<int, Task>)
    ensures Released(held, m, {}) == held
  {
  }

  /** A claim that meets no held bucket keeps the items apart. */
  lemma ClaimKeeps(m: map<int, Task>, held: set<int>, k: int, t: Task)
    requires NoOverlap(m, held) && k !in m && Buckets(t) !! held
    ensures NoOverlap(m[k := t], held + Buckets(t))
  {
    var m' := m[k := t];
    forall a, b | a in m' && b in m' && a != b ensures Buckets(m'[a]) !! Buckets(m'[b]) {
      if a != k && b != k {
        assert m'[a] == m[a] && m'[b] == m[b];
      }
    }
  }

  /** Releasing an item's buckets keeps the others held: they never shared one. */
  lemma ReleaseKeeps(m: map<int, Task>, held: set<int>, k: int)
    requires NoOverlap(m, held) && k in m
    ensures NoOverlap(m - {k}, held - Buckets(m[k]))
  {
    var m' := m - {k};
    forall a | a in m' ensures Buckets(m'[a]) <= held - Buckets(m[k]) {
      assert Buckets(m[a]) !! Buckets(m[k]);
    }
  }

  /** Replacing an item by one whose buckets meet nothing still held after
      releasing the old one. */
  lemma ReplaceKeeps(m: map<int, Task>, held: set<int>, k: int, t: Task)
    requires NoOverlap(m, held) && k in m && Buckets(t) !! (held - Buckets(m[k]))
    ensures NoOverlap(m[k := t], held - Buckets(m[k]) + Buckets(t))
  {
    ReleaseKeeps(m, held, k);
    ClaimKeeps(m - {k}, held - Buckets(m[k]), k, t);
    assert (m - {k})[k := t] == m[k := t];
  }

  /** Dropping items without releasing their buckets keeps the rest apart. */
  lemma DropKeeps(m: map<int, Task>, held: set<int>, ks: set<int>)
    requires NoOverlap(m, held)
    ensures NoOverlap(m - ks, held)
  {
  }

  /** An item's buckets are held, so releasing and re-claiming them gives
      back the held set. */
  lemma ReclaimRestores(m: map<int, Task>, held: set<int>, k: int)
    requires NoOverlap(m, held) && k in m
    ensures held - Buckets(m[k]) + Buckets(m[k]) == held
  {
  }
}
