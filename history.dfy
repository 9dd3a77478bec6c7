/** The access history of `InMemoryHistoryManager`: a doubly linked list of
    nodes, oldest access at the head, with a map from each id on the list to
    its node. Nodes live in an arena (`nodes`) and point to each other by
    index; -1 stands for a null link. The ghost `Contents` is the list read
    from head to tail and `Spine` the arena indices of its nodes. */
module History {
  import opened Wrappers
  import Sets

  /** The history as a plain sequence of ids: what the linked list means. */
  predicate NoDup(s: seq<int>) {
    forall i, j | 0 <= i < j < |s| :: s[i] != s[j]
  }

  /** `s` with `x` taken out, everything else in its order. */
  function Erase(s: seq<int>, x: int): (r: seq<int>)
    ensures forall y :: y in r <==> y in s && y != x
    ensures |r| <= |s|
    ensures x !in s ==> r == s
  {
    if s == [] then []
    else (if s[0] == x then [] else [s[0]]) + Erase(s[1..], x)
  }

  /** `s` without any of the ids in `xs`, everything else in its order. */
  function EraseAll(s: seq<int>, xs: set<int>): (r: seq<int>)
    ensures forall y :: y in r <==> y in s && y !in xs
  {
    if s == [] then []
    else (if s[0] in xs then [] else [s[0]]) + EraseAll(s[1..], xs)
  }

  /** Erasing ids one at a time, in any order, erases the set of them. */
  lemma {:induction false} EraseAllStep(s: seq<int>, xs: set<int>, x: int)
    ensures Erase(EraseAll(s, xs), x) == EraseAll(s, xs + {x})
  {
    if s != [] {
      EraseAllStep(s[1..], xs, x);
      var r := EraseAll(s[1..], xs);
      var r' := EraseAll(s[1..], xs + {x});
      if s[0] in xs {
        assert EraseAll(s, xs) == r;
        assert EraseAll(s, xs + {x}) == r';
      } else {
        var e := [s[0]] + r;
        assert EraseAll(s, xs) == e;
        assert e[0] == s[0] && e[1..] == r;
        if s[0] == x {
          assert Erase(e, x) == Erase(r, x);
          assert EraseAll(s, xs + {x}) == r';
        } else {
          assert Erase(e, x) == [s[0]] + Erase(r, x);
          assert EraseAll(s, xs + {x}) == [s[0]] + r';
        }
      }
    }
  }

  lemma {:induction false} EraseNone(s: seq<int>)
    ensures EraseAll(s, {}) == s
  {
    if s != [] {
      EraseNone(s[1..]);
      assert s == [s[0]] + s[1..];
    }
  }

  /** The list after an access of `x`: `x` moves to, or joins at, the most
      recent end. */
  function Accessed(s: seq<int>, x: int): seq<int> {
    Erase(s, x) + [x]
  }

  lemma {:induction false} EraseKeepsNoDup(s: seq<int>, x: int)
    requires NoDup(s)
    ensures NoDup(Erase(s, x))
  {
    if s != [] {
      EraseKeepsNoDup(s[1..], x);
      assert s[0] !in s[1..];
      var r := Erase(s[1..], x);
      if s[0] != x {
        assert Erase(s, x) == [s[0]] + r;
        assert forall j | 0 <= j < |r| :: r[j] != s[0];
      }
    }
  }

  /** In a list without duplicates, erasing the id at position `k` cuts out
      exactly that position and keeps the order of the rest. */
  lemma {:induction false} EraseAt(s: seq<int>, k: nat)
    requires NoDup(s) && k < |s|
    ensures Erase(s, s[k]) == s[..k] + s[k + 1..]
  {
    if k == 0 {
      assert s[k] !in s[1..];
      assert s[1..] == s[k + 1..];
    } else {
      assert NoDup(s[1..]) by {
        forall i, j | 0 <= i < j < |s[1..]| ensures s[1..][i] != s[1..][j] {
          assert s[1..][i] == s[i + 1] && s[1..][j] == s[j + 1];
        }
      }
      EraseAt(s[1..], k - 1);
      assert s[1..][k - 1] == s[k];
      assert s[0] != s[k];
      assert s[1..][..k - 1] == s[1..k] && s[1..][k..] == s[k + 1..];
      assert [s[0]] + s[1..k] == s[..k];
    }
  }

  /** After an access the id is on the list exactly once, at the most recent
      end, and no other id is duplicated. */
  lemma AccessedOnceAtEnd(s: seq<int>, x: int)
    requires NoDup(s)
    ensures var r := Accessed(s, x);
      NoDup(r) && r[|r| - 1] == x && forall i | 0 <= i < |r| - 1 :: r[i] != x
  {
    EraseKeepsNoDup(s, x);
    var e := Erase(s, x);
    assert forall i | 0 <= i < |e| :: e[i] != x by {
      forall i | 0 <= i < |e| ensures e[i] != x {
        assert e[i] in e;
      }
    }
  }

  /** A list without duplicates is as long as the number of distinct ids on
      it: the history has no size cap and no repeats. */
  lemma {:induction false} NoDupLength(s: seq<int>)
    requires NoDup(s)
    ensures |set x | x in s| == |s|
  {
    if s != [] {
      var t := s[1..];
      assert NoDup(t) by {
        forall i, j | 0 <= i < j < |t| ensures t[i] != t[j] {
          assert t[i] == s[i + 1] && t[j] == s[j + 1];
        }
      }
      NoDupLength(t);
      assert s[0] !in t;
      assert (set x | x in s) == (set x | x in t) + {s[0]} by {
        assert s == [s[0]] + t;
      }
    }
  }

  /** One call on the history: `add` of a task with this id, or `remove`. */
  datatype Call = AddCall(id: int) | RemoveCall(id: int)

  /** The history left by a run of calls on a fresh manager. */
  function Replay(calls: seq<Call>): seq<int> {
    if calls == [] then []
    else
      var h := Replay(calls[..|calls| - 1]);
      match calls[|calls| - 1]
      case AddCall(x) => Accessed(h, x)
      case RemoveCall(x) => Erase(h, x)
  }

  /** The ids added and not removed since: an id is live when its last call
      is an add. */
  ghost predicate Live(calls: seq<Call>, x: int) {
    exists i | 0 <= i < |calls| :: calls[i] == AddCall(x) && forall j | i < j < |calls| :: calls[j].id != x
  }

  /** Liveness after one more call: decided by that call for its own id,
      inherited for every other id. */
  lemma LiveStep(calls: seq<Call>, x: int)
    requires calls != []
    ensures var c := calls[|calls| - 1];
      Live(calls, x) <==> if c.id == x then c.AddCall? else Live(calls[..|calls| - 1], x)
  {
    var pre := calls[..|calls| - 1];
    var c := calls[|calls| - 1];
    if c.id == x {
      if c.AddCall? {
        assert calls[|calls| - 1] == AddCall(x);
      }
    } else {
      if Live(pre, x) {
        var i :| 0 <= i < |pre| && pre[i] == AddCall(x) && forall j | i < j < |pre| :: pre[j].id != x;
        assert calls[i] == AddCall(x);
        assert forall j | i < j < |calls| :: calls[j].id != x by {
          forall j | i < j < |calls| ensures calls[j].id != x {
            if j < |pre| {
              assert calls[j] == pre[j];
            }
          }
        }
      }
      if Live(calls, x) {
        var i :| 0 <= i < |calls| && calls[i] == AddCall(x) && forall j | i < j < |calls| :: calls[j].id != x;
        assert i < |pre| && pre[i] == AddCall(x);
        assert forall j | i < j < |pre| :: pre[j].id != x by {
          forall j | i < j < |pre| ensures pre[j].id != x {
            assert pre[j] == calls[j];
          }
        }
      }
    }
  }

  /** The replayed history holds exactly the live ids, each once, so its
      length is the number of distinct ids added and not removed. */
  lemma {:induction false} ReplayHoldsLiveIds(calls: seq<Call>)
    ensures NoDup(Replay(calls))
    ensures forall x :: x in Replay(calls) <==> Live(calls, x)
    ensures |Replay(calls)| == |set x | x in Replay(calls)|
  {
    if calls != [] {
      var pre := calls[..|calls| - 1];
      var c := calls[|calls| - 1];
      ReplayHoldsLiveIds(pre);
      var h := Replay(pre);
      EraseKeepsNoDup(h, c.id);
      if c.AddCall? {
        AccessedOnceAtEnd(h, c.id);
      }
      forall x ensures x in Replay(calls) <==> Live(calls, x) {
        LiveStep(calls, x);
      }
      NoDupLength(Replay(calls));
    }
  }

  datatype Node = Node(prev: int, data: Option<int>, next: int)

  /** The list structure over values: `spine` walks from `head` to `tail`
      through `next` links, with `prev` links mirroring them; node
      `spine[i]` carries id `ids[i]`. */
  ghost predicate LinkedList(nodes: seq<Node>, head: int, tail: int, spine: seq<int>, ids: seq<int>) {
    && |spine| == |ids|
    && (forall i | 0 <= i < |spine| :: 0 <= spine[i] < |nodes| && nodes[spine[i]].data == Some(ids[i]))
    && (forall i, j | 0 <= i < j < |spine| && j == i + 1 ::
          nodes[spine[i]].next == spine[j] && nodes[spine[j]].prev == spine[i])
    && if spine == [] then head == -1 && tail == -1
       else
         && head == spine[0] && nodes[spine[0]].prev == -1
         && tail == spine[|spine| - 1] && nodes[spine[|spine| - 1]].next == -1
  }

  /** The map sends exactly the ids on the list, each to its own node. */
  ghost predicate Indexed(m: map<int, int>, spine: seq<int>, ids: seq<int>)
    requires |spine| == |ids|
  {
    && (forall x | x in m :: x in ids)
    && (forall i | 0 <= i < |ids| :: ids[i] in m && m[ids[i]] == spine[i])
  }

  /** Nodes on the list are distinct, since they carry distinct ids. */
  lemma SpineDistinct(nodes: seq<Node>, head: int, tail: int, spine: seq<int>, ids: seq<int>)
    requires LinkedList(nodes, head, tail, spine, ids) && NoDup(ids)
    ensures forall i, j | 0 <= i < j < |spine| :: spine[i] != spine[j]
  {
    forall i, j | 0 <= i < j < |spine| ensures spine[i] != spine[j] {
      assert nodes[spine[i]].data == Some(ids[i]) && nodes[spine[j]].data == Some(ids[j]);
    }
  }

  lemma AppendKeepsLinked(nodes: seq<Node>, head: int, tail: int, spine: seq<int>, ids: seq<int>,
                          nodes': seq<Node>, head': int, id: int)
    requires LinkedList(nodes, head, tail, spine, ids) && NoDup(ids)
    requires |nodes'| == |nodes| + 1 && nodes'[|nodes|] == Node(tail, Some(id), -1)
    requires forall j | 0 <= j < |nodes| && j != tail :: nodes'[j] == nodes[j]
    requires tail != -1 ==> nodes'[tail] == nodes[tail].(next := |nodes|)
    requires head' == if tail == -1 then |nodes| else head
    ensures LinkedList(nodes', head', |nodes|, spine + [|nodes|], ids + [id])
  {
    var spine', ids' := spine + [|nodes|], ids + [id];
    var last := |spine| - 1;
    SpineDistinct(nodes, head, tail, spine, ids);
    assert forall i | 0 <= i < |spine| :: spine'[i] == spine[i] && ids'[i] == ids[i];
    forall i | 0 <= i < |spine'| ensures nodes'[spine'[i]].data == Some(ids'[i]) {
    }
    forall i, j | 0 <= i < j < |spine'| && j == i + 1
      ensures nodes'[spine'[i]].next == spine'[j] && nodes'[spine'[j]].prev == spine'[i]
    {
      if j < |spine| {
        assert spine[i] != tail && spine[i] == spine'[i] && spine[j] == spine'[j];
      }
    }
    if spine != [] {
      if last > 0 {
        assert spine[0] != tail;
      }
    }
  }

  /** The arena after cutting node `spine[k]` out: its neighbours point
      past it, it is cleared, and no other node changes. */
  ghost predicate Unlinked(nodes: seq<Node>, spine: seq<int>, k: nat, nodes': seq<Node>)
    requires k < |spine|
  {
    var prev := if k == 0 then -1 else spine[k - 1];
    var next := if k + 1 == |spine| then -1 else spine[k + 1];
    && |nodes'| == |nodes|
    && 0 <= spine[k] < |nodes|
    && nodes'[spine[k]] == Node(-1, None, -1)
    && (prev != -1 ==> 0 <= prev < |nodes| && nodes'[prev] == nodes[prev].(next := next))
    && (next != -1 ==> 0 <= next < |nodes| && nodes'[next] == nodes[next].(prev := prev))
    && (forall j | 0 <= j < |nodes| && j != spine[k] && j != prev && j != next :: nodes'[j] == nodes[j])
  }

  lemma UnlinkKeepsLinks(nodes: seq<Node>, head: int, tail: int, spine: seq<int>, ids: seq<int>, k: nat, nodes': seq<Node>)
    requires LinkedList(nodes, head, tail, spine, ids) && NoDup(ids) && k < |spine| && Unlinked(nodes, spine, k, nodes')
    ensures var spine' := spine[..k] + spine[k + 1..];
      forall i, j | 0 <= i < j < |spine'| && j == i + 1 ::
        nodes'[spine'[i]].next == spine'[j] && nodes'[spine'[j]].prev == spine'[i]
  {
    var spine' := spine[..k] + spine[k + 1..];
    var prev := if k == 0 then -1 else spine[k - 1];
    var next := if k + 1 == |spine| then -1 else spine[k + 1];
    SpineDistinct(nodes, head, tail, spine, ids);
    forall i, j | 0 <= i < j < |spine'| && j == i + 1
      ensures nodes'[spine'[i]].next == spine'[j] && nodes'[spine'[j]].prev == spine'[i]
    {
      if j < k {
        assert spine'[i] == spine[i] && spine'[j] == spine[j];
        assert spine[i] != prev && spine[i] != next && spine[i] != spine[k];
        assert spine[j] != next && spine[j] != spine[k];
      } else if j == k {
        assert spine'[i] == spine[k - 1] == prev && spine'[j] == spine[k + 1] == next;
      } else {
        assert spine'[i] == spine[i + 1] && spine'[j] == spine[j + 1];
        assert spine[i + 1] != prev && spine[i + 1] != spine[k];
        assert spine[j + 1] != prev && spine[j + 1] != next && spine[j + 1] != spine[k];
      }
    }
  }

  lemma UnlinkKeepsNodes(nodes: seq<Node>, head: int, tail: int, spine: seq<int>, ids: seq<int>, k: nat, nodes': seq<Node>)
    requires LinkedList(nodes, head, tail, spine, ids) && NoDup(ids) && k < |spine| && Unlinked(nodes, spine, k, nodes')
    ensures var spine', ids' := spine[..k] + spine[k + 1..], ids[..k] + ids[k + 1..];
      forall i | 0 <= i < |spine'| :: 0 <= spine'[i] < |nodes'| && nodes'[spine'[i]].data == Some(ids'[i])
  {
    var spine', ids' := spine[..k] + spine[k + 1..], ids[..k] + ids[k + 1..];
    SpineDistinct(nodes, head, tail, spine, ids);
    forall i | 0 <= i < |spine'| ensures 0 <= spine'[i] < |nodes'| && nodes'[spine'[i]].data == Some(ids'[i]) {
      var i0 := if i < k then i else i + 1;
      assert spine'[i] == spine[i0] && ids'[i] == ids[i0] && i0 != k;
    }
  }

  lemma UnlinkKeepsLinked(nodes: seq<Node>, head: int, tail: int, spine: seq<int>, ids: seq<int>, k: nat,
                          nodes': seq<Node>, head': int, tail': int)
    requires LinkedList(nodes, head, tail, spine, ids) && NoDup(ids) && k < |spine| && Unlinked(nodes, spine, k, nodes')
    requires var prev := if k == 0 then -1 else spine[k - 1];
      var next := if k + 1 == |spine| then -1 else spine[k + 1];
      && head' == (if prev == -1 then next else head)
      && tail' == (if next == -1 then prev else tail)
    ensures LinkedList(nodes', head', tail', spine[..k] + spine[k + 1..], ids[..k] + ids[k + 1..])
  {
    var spine' := spine[..k] + spine[k + 1..];
    var prev := if k == 0 then -1 else spine[k - 1];
    var next := if k + 1 == |spine| then -1 else spine[k + 1];
    SpineDistinct(nodes, head, tail, spine, ids);
    UnlinkKeepsNodes(nodes, head, tail, spine, ids, k, nodes');
    UnlinkKeepsLinks(nodes, head, tail, spine, ids, k, nodes');
    if spine' != [] {
      var last := |spine'| - 1;
      if k == 0 {
        assert head' == next == spine'[0];
      } else {
        assert spine'[0] == spine[0] != next;
        assert spine[0] != spine[k];
      }
      if k == |spine| - 1 {
        assert tail' == prev == spine'[last];
      } else {
        assert spine'[last] == spine[|spine| - 1] != prev;
        assert spine[|spine| - 1] != spine[k];
      }
    }
  }

  lemma AppendKeepsNoDup(s: seq<int>, x: int)
    requires NoDup(s) && x !in s
    ensures NoDup(s + [x])
  {
  }

  lemma AppendKeepsIndexed(m: map<int, int>, spine: seq<int>, ids: seq<int>, id: int, n: nat)
    requires |spine| == |ids| && Indexed(m, spine, ids) && id !in ids
    ensures Indexed(m[id := n], spine + [n], ids + [id])
  {
    var spine', ids' := spine + [n], ids + [id];
    forall i | 0 <= i < |ids'| ensures ids'[i] in m[id := n] && m[id := n][ids'[i]] == spine'[i] {
      if i < |ids| {
        assert ids'[i] == ids[i] && spine'[i] == spine[i] && ids[i] != id;
      }
    }
  }

  lemma EraseKeepsIndexed(m: map<int, int>, spine: seq<int>, ids: seq<int>, k: nat)
    requires |spine| == |ids| && Indexed(m, spine, ids) && NoDup(ids) && k < |ids|
    ensures Indexed(m - {ids[k]}, spine[..k] + spine[k + 1..], ids[..k] + ids[k + 1..])
  {
    var spine', ids' := spine[..k] + spine[k + 1..], ids[..k] + ids[k + 1..];
    forall i | 0 <= i < |ids'|
      ensures ids'[i] in m - {ids[k]} && (m - {ids[k]})[ids'[i]] == spine'[i]
    {
      var i0 := if i < k then i else i + 1;
      assert ids'[i] == ids[i0] && spine'[i] == spine[i0] && i0 != k;
    }
    forall x | x in m - {ids[k]} ensures x in ids' {
      var i :| 0 <= i < |ids| && ids[i] == x;
      assert i != k;
      if i < k {
        assert ids'[i] == x;
      } else {
        assert ids'[i - 1] == x;
      }
    }
  }

  /** The pointer work of `linkLast` on the arena: a new node after `tail`,
      which becomes the head too when the list was empty. */
  method Append(nodes: seq<Node>, head: int, tail: int, id: int, ghost spine: seq<int>, ghost ids: seq<int>)
    returns (arena: seq<Node>, newHead: int)
    requires LinkedList(nodes, head, tail, spine, ids) && NoDup(ids)
    ensures LinkedList(arena, newHead, |nodes|, spine + [|nodes|], ids + [id])
  {
    var n := |nodes|;
    arena := nodes + [Node(tail, Some(id), -1)];
    newHead := head;
    if tail == -1 {
      newHead := n;
    } else {
      arena := arena[tail := arena[tail].(next := n)];
    }
    AppendKeepsLinked(nodes, head, tail, spine, ids, arena, newHead, id);
  }

  /** The pointer work of `removeNode` on the arena: the neighbours of node
      `n` (the `k`-th of `spine`) are linked to each other, or become the new
      ends, and `n` is cleared. */
  method Unlink(nodes: seq<Node>, head: int, tail: int, n: int, ghost spine: seq<int>, ghost ids: seq<int>, ghost k: nat)
    returns (arena: seq<Node>, newHead: int, newTail: int)
    requires LinkedList(nodes, head, tail, spine, ids) && NoDup(ids) && k < |spine| && spine[k] == n
    ensures LinkedList(arena, newHead, newTail, spine[..k] + spine[k + 1..], ids[..k] + ids[k + 1..])
    ensures n < |arena| && arena[n] == Node(-1, None, -1)
  {
    arena := nodes;
    var prev := arena[n].prev;
    var next := arena[n].next;
    SpineDistinct(nodes, head, tail, spine, ids);
    assert prev == if k == 0 then -1 else spine[k - 1];
    assert next == if k + 1 == |spine| then -1 else spine[k + 1];
    assert prev != n && next != n && (prev != -1 ==> prev != next);
    newHead, newTail := head, tail;
    if prev == -1 {
      newHead := next;
    } else {
      arena := arena[prev := arena[prev].(next := next)];
      arena := arena[n := arena[n].(prev := -1)];
    }
    if next == -1 {
      newTail := prev;
    } else {
      arena := arena[next := arena[next].(prev := prev)];
      arena := arena[n := arena[n].(next := -1)];
    }
    arena := arena[n := arena[n].(data := None)];
    assert Unlinked(nodes, spine, k, arena);
    UnlinkKeepsLinked(nodes, head, tail, spine, ids, k, arena, newHead, newTail);
  }

  /** The whole invariant of the history, on values: a linked list holding
      each id once, and a map sending exactly those ids to their nodes. */
  ghost predicate Sound(nodes: seq<Node>, head: int, tail: int, m: map<int, int>, spine: seq<int>, ids: seq<int>) {
    LinkedList(nodes, head, tail, spine, ids) && NoDup(ids) && Indexed(m, spine, ids)
  }

  /** `remove` on values: the map entry of `x` goes, and its node is
      unlinked; an id that is not there changes nothing. */
  method Delete(nodes: seq<Node>, head: int, tail: int, m: map<int, int>, x: int, ghost spine: seq<int>, ghost ids: seq<int>)
    returns (nodes': seq<Node>, head': int, tail': int, m': map<int, int>, ghost spine': seq<int>, ghost ids': seq<int>)
    requires Sound(nodes, head, tail, m, spine, ids)
    ensures Sound(nodes', head', tail', m', spine', ids')
    ensures ids' == Erase(ids, x)
    ensures x !in ids ==> m' == m && ids' == ids
  {
    m' := m - {x};
    if x in m {
      ghost var k :| 0 <= k < |ids| && ids[k] == x;
      EraseAt(ids, k);
      EraseKeepsNoDup(ids, x);
      EraseKeepsIndexed(m, spine, ids, k);
      nodes', head', tail' := Unlink(nodes, head, tail, m[x], spine, ids, k);
      spine', ids' := spine[..k] + spine[k + 1..], ids[..k] + ids[k + 1..];
    } else {
      assert x !in ids;
      assert m' == m;
      nodes', head', tail', spine', ids' := nodes, head, tail, spine, ids;
    }
  }

  /** `add` on values: the id's old node, if any, is unlinked, and a new
      node for it is linked last. */
  method Put(nodes: seq<Node>, head: int, tail: int, m: map<int, int>, x: int, ghost spine: seq<int>, ghost ids: seq<int>)
    returns (nodes': seq<Node>, head': int, tail': int, m': map<int, int>, ghost spine': seq<int>, ghost ids': seq<int>)
    requires Sound(nodes, head, tail, m, spine, ids)
    ensures Sound(nodes', head', tail', m', spine', ids')
    ensures ids' == Accessed(ids, x)
  {
    var n, h, t, m0, sp, cs := Delete(nodes, head, tail, m, x, spine, ids);
    nodes', head' := Append(n, h, t, x, sp, cs);
    AppendKeepsNoDup(cs, x);
    AppendKeepsIndexed(m0, sp, cs, x, |n|);
    tail', m' := |n|, m0[x := |n|];
    spine', ids' := sp + [|n|], cs + [x];
  }

  /** `remove` for each id of `xs`, in any order. */
  method DeleteAll(nodes: seq<Node>, head: int, tail: int, m: map<int, int>, xs: set<int>, ghost spine: seq<int>, ghost ids: seq<int>)
    returns (nodes': seq<Node>, head': int, tail': int, m': map<int, int>, ghost spine': seq<int>, ghost ids': seq<int>)
    requires Sound(nodes, head, tail, m, spine, ids)
    ensures Sound(nodes', head', tail', m', spine', ids')
    ensures ids' == EraseAll(ids, xs)
  {
    nodes', head', tail', m', spine', ids' := nodes, head, tail, m, spine, ids;
    EraseNone(ids);
    var rest := xs;
    assert xs - rest == {};
    while rest != {}
      invariant rest <= xs
      invariant Sound(nodes', head', tail', m', spine', ids')
      invariant ids' == EraseAll(ids, xs - rest)
      decreases rest
    {
      Sets.Nonempty(rest);
      var x :| x in rest;
      EraseAllStep(ids, xs - rest, x);
      nodes', head', tail', m', spine', ids' := Delete(nodes', head', tail', m', x, spine', ids');
      assert xs - (rest - {x}) == (xs - rest) + {x};
      rest := rest - {x};
    }
    assert xs - rest == xs;
  }

  class HistoryManager {
    var nodes: seq<Node>
    var head: int
    var tail: int
    var taskHistory: map<int, int>
    ghost var Contents: seq<int>
    ghost var Spine: seq<int>

    /** The list is linked, holds each id once, and `taskHistory` maps
        exactly the ids on the list, each to its own node. */
    ghost predicate Valid()
      reads this
    {
      Sound(nodes, head, tail, taskHistory, Spine, Contents)
    }

    /** A fresh manager has an empty history. */
    constructor ()
      ensures Valid() && Contents == []
    {
      nodes := [];
      head := -1;
      tail := -1;
      taskHistory := map[];
      Contents := [];
      Spine := [];
    }

    /** `head == null` iff `tail == null` iff the list is empty, and the keys
        of `taskHistory` are the ids on the list. */
    lemma NullEndsIffEmpty()
      requires Valid()
      ensures head == -1 <==> Contents == []
      ensures tail == -1 <==> Contents == []
      ensures taskHistory.Keys == set x | x in Contents
    {
      forall x ensures x in taskHistory.Keys <==> x in set y | y in Contents {
        if x in Contents {
          var i :| 0 <= i < |Contents| && Contents[i] == x;
        }
      }
    }

    /** `add`: a null task is ignored; otherwise its id moves to, or joins
        at, the most recent end. */
    method Add(id: Option<int>)
      requires Valid()
      modifies this
      ensures Valid()
      ensures id.None? ==> Contents == old(Contents) && taskHistory == old(taskHistory)
      ensures id.Some? ==> Contents == Accessed(old(Contents), id.value)
    {
      if id.Some? {
        var n, h, t, m, spine, ids := Put(nodes, head, tail, taskHistory, id.value, Spine, Contents);
        nodes, head, tail, taskHistory := n, h, t, m;
        Spine, Contents := spine, ids;
      }
    }

    /** `remove`: the id leaves the list and the map; the rest keep their
        order. An absent id changes nothing. */
    method Remove(id: int)
      requires Valid()
      modifies this
      ensures Valid()
      ensures Contents == Erase(old(Contents), id)
      ensures id !in old(Contents) ==> Contents == old(Contents) && taskHistory == old(taskHistory)
    {
      var n, h, t, m, spine, ids := Delete(nodes, head, tail, taskHistory, id, Spine, Contents);
      nodes, head, tail, taskHistory := n, h, t, m;
      Spine, Contents := spine, ids;
    }

    /** The manager's sweeps `keySet().forEach(historyManager::remove)`:
        every id of `ids` leaves the history, the rest keep their order. */
    method RemoveAll(ids: set<int>)
      requires Valid()
      modifies this
      ensures Valid()
      ensures Contents == EraseAll(old(Contents), ids)
    {
      var n, h, t, m, spine, cs := DeleteAll(nodes, head, tail, taskHistory, ids, Spine, Contents);
      nodes, head, tail, taskHistory := n, h, t, m;
      Spine, Contents := spine, cs;
    }

    /** `getHistory` / `getTasks`: walks from `head` along `next`, collecting
        ids oldest first. */
    method GetHistory() returns (h: seq<int>)
      requires Valid()
      ensures h == Contents
    {
      h := [];
      var node := head;
      ghost var i := 0;
      while node != -1
        invariant 0 <= i <= |Spine|
        invariant node == (if i == |Spine| then -1 else Spine[i])
        invariant h == Contents[..i]
        decreases |Spine| - i
      {
        assert nodes[Spine[i]].data == Some(Contents[i]);
        h := h + [nodes[node].data.value];
        node := nodes[node].next;
        i := i + 1;
      }
    }
  }
}
