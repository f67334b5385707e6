/** Day 9, part one: disk compaction on an arena-backed doubly linked list.
    Nodes live in a map keyed by id; a node's id is the map size when it
    was created, and popped nodes stay in the map, so ids are never
    reused. */
module DiskCompaction {
  import opened Wrappers
  import opened Decimal

  /** A run of `amount` blocks, of file `fileId` or free (`None`). */
  datatype Node = Node(fileId: Option<nat>, amount: nat, prev: Option<nat>, next: Option<nat>)

  datatype Disk = Disk(nodes: map<nat, Node>, head: Option<nat>, tail: Option<nat>, finger: Option<nat>)

  /** What a node holds, without its links. */
  datatype Segment = Segment(fileId: Option<nat>, amount: nat)

  /** `DoublyLinkedList::new`. */
  const Empty := Disk(map[], None, None, None)

  // ---------------------------------------------------------------------
  // The arena operations, as the source writes them

  /** `push`: a new node with id `nodes.len()` after the tail; the first
      push also sets the head and the finger. */
  function Push(d: Disk, amount: nat, fileId: Option<nat>): Disk
    requires d.tail.Some? ==> d.tail.value in d.nodes
  {
    var n := |d.nodes|;
    var linked := if d.tail.Some? then d.nodes[d.tail.value := d.nodes[d.tail.value].(next := Some(n))] else d.nodes;
    Disk(linked[n := Node(fileId, amount, d.tail, None)],
         if d.head.None? then Some(n) else d.head,
         Some(n),
         if d.finger.None? then Some(n) else d.finger)
  }

  /** `pop`: unlinks the tail; the node stays in the arena. */
  function Pop(d: Disk): Disk
    requires d.tail.Some? ==> d.tail.value in d.nodes
    requires d.tail.Some? && d.nodes[d.tail.value].prev.Some? ==> d.nodes[d.tail.value].prev.value in d.nodes
  {
    if d.tail.None? then d
    else match d.nodes[d.tail.value].prev
      case Some(p) => d.(nodes := d.nodes[p := d.nodes[p].(next := None)], tail := Some(p))
      case None => d.(head := None, tail := None)
  }

  /** `insert_after_finger`: a new node spliced in after the finger; it
      becomes the tail when the finger was the tail. */
  function InsertAfterFinger(d: Disk, amount: nat, fileId: Option<nat>): Disk
    requires d.finger.Some? ==> d.finger.value in d.nodes
    requires d.finger.Some? && d.nodes[d.finger.value].next.Some? ==> d.nodes[d.finger.value].next.value in d.nodes
  {
    if d.finger.None? then d
    else
      var f := d.finger.value;
      var n := |d.nodes|;
      var next := d.nodes[f].next;
      var linked := d.nodes[f := d.nodes[f].(next := Some(n))];
      var relinked := if next.Some? then linked[next.value := linked[next.value].(prev := Some(n))] else linked;
      d.(nodes := relinked[n := Node(fileId, amount, Some(f), next)],
         tail := if next.Some? then d.tail else Some(n))
  }

  /** `finger_next`. */
  function FingerNext(d: Disk): Disk
    requires d.finger.Some? ==> d.finger.value in d.nodes
  {
    if d.finger.None? then d else d.(finger := d.nodes[d.finger.value].next)
  }

  /** `finger_reset`. */
  function FingerReset(d: Disk): Disk
  {
    d.(finger := d.head)
  }

  /** `set_amount`. */
  function SetAmount(d: Disk, id: nat, amount: nat): Disk
    requires id in d.nodes
  {
    d.(nodes := d.nodes[id := d.nodes[id].(amount := amount)])
  }

  /** `set_file_id`. */
  function SetFileId(d: Disk, id: nat, fileId: nat): Disk
    requires id in d.nodes
  {
    d.(nodes := d.nodes[id := d.nodes[id].(fileId := Some(fileId))])
  }

  /** `is_free`. */
  predicate IsFree(d: Disk, id: nat)
    requires id in d.nodes
  {
    d.nodes[id].fileId.None?
  }

  /** `get_amount`. */
  function GetAmount(d: Disk, id: nat): nat
    requires id in d.nodes
  {
    d.nodes[id].amount
  }

  /** `get_file_id`; the source unwraps, so the node must hold a file. */
  function GetFileId(d: Disk, id: nat): nat
    requires id in d.nodes && d.nodes[id].fileId.Some?
  {
    d.nodes[id].fileId.value
  }

  // ---------------------------------------------------------------------
  // The list an arena represents

  /** Ids are exactly `0 .. nodes.len()`, so `nodes.len()` is always fresh. */
  ghost predicate Dense(nodes: map<nat, Node>)
  {
    forall k: nat :: k in nodes <==> k < |nodes|
  }

  /** Every listed id is in the arena. Triggered on lookups only: `ids[i]`
      alone would chain through `NextId` along the whole list. */
  ghost predicate InNodes(nodes: map<nat, Node>, ids: seq<nat>)
  {
    forall i {:trigger ids[i] in nodes} :: 0 <= i < |ids| ==> ids[i] in nodes
  }

  /** `ids[i]` under a name of its own, so that `Distinct` is used only
      where a proof mentions it. */
  function IdAt(ids: seq<nat>, i: nat): nat
    requires i < |ids|
  {
    ids[i]
  }

  ghost predicate Distinct(ids: seq<nat>)
  {
    forall i, j :: 0 <= i < j < |ids| ==> IdAt(ids, i) != IdAt(ids, j)
  }

  lemma DistinctFrom(ids: seq<nat>, i: nat)
    requires Distinct(ids) && i < |ids|
    ensures forall j :: 0 <= j < |ids| && j != i ==> ids[j] != ids[i]
  {
    forall j | 0 <= j < |ids| && j != i
      ensures ids[j] != ids[i]
    {
      if j < i {
        assert IdAt(ids, j) != IdAt(ids, i);
      } else {
        assert IdAt(ids, i) != IdAt(ids, j);
      }
    }
  }

  lemma DistinctAppend(ids: seq<nat>, n: nat)
    requires Distinct(ids) && forall j :: 0 <= j < |ids| ==> ids[j] != n
    ensures Distinct(ids + [n])
  {
    var s := ids + [n];
    forall a, b | 0 <= a < b < |s|
      ensures IdAt(s, a) != IdAt(s, b)
    {
      if b < |ids| {
        assert IdAt(ids, a) != IdAt(ids, b);
      }
    }
  }

  lemma DistinctTake(ids: seq<nat>, k: nat)
    requires Distinct(ids) && k <= |ids|
    ensures Distinct(ids[..k])
  {
    var s := ids[..k];
    forall a, b | 0 <= a < b < |s|
      ensures IdAt(s, a) != IdAt(s, b)
    {
      assert IdAt(ids, a) != IdAt(ids, b);
    }
  }

  lemma DistinctSplice(ids: seq<nat>, i: nat, n: nat)
    requires Distinct(ids) && i < |ids| && forall j :: 0 <= j < |ids| ==> ids[j] != n
    ensures Distinct(ids[..i + 1] + [n] + ids[i + 1..])
  {
    var s := ids[..i + 1] + [n] + ids[i + 1..];
    SpliceFacts(ids, i, n);
    forall a, b | 0 <= a < b < |s|
      ensures IdAt(s, a) != IdAt(s, b)
    {
      var a' := if a <= i then a else a - 1;
      var b' := if b <= i then b else b - 1;
      if a != i + 1 && b != i + 1 {
        assert IdAt(ids, a') != IdAt(ids, b');
      }
    }
  }

  /** The id after position `i` of `ids`, if any. */
  function NextId(ids: seq<nat>, i: int): Option<nat>
  {
    if 0 <= i && i + 1 < |ids| then Some(ids[i + 1]) else None
  }

  /** The id before position `i` of `ids`, if any. */
  function PrevId(ids: seq<nat>, i: int): Option<nat>
  {
    if 0 < i <= |ids| then Some(ids[i - 1]) else None
  }

  ghost predicate NextLinks(nodes: map<nat, Node>, ids: seq<nat>)
    requires InNodes(nodes, ids)
  {
    forall i {:trigger nodes[ids[i]]} :: 0 <= i < |ids| ==> nodes[ids[i]].next == NextId(ids, i)
  }

  ghost predicate PrevLinks(nodes: map<nat, Node>, ids: seq<nat>)
    requires InNodes(nodes, ids)
  {
    forall i {:trigger nodes[ids[i]]} :: 0 <= i < |ids| ==> nodes[ids[i]].prev == PrevId(ids, i)
  }

  /** `d` links the nodes `ids`, in order, from head to tail. */
  ghost predicate Valid(d: Disk, ids: seq<nat>)
  {
    Dense(d.nodes) && InNodes(d.nodes, ids) && Distinct(ids)
    && NextLinks(d.nodes, ids) && PrevLinks(d.nodes, ids)
    && d.head == (if |ids| > 0 then Some(ids[0]) else None)
    && d.tail == (if |ids| > 0 then Some(ids[|ids| - 1]) else None)
  }

  function SegmentOf(n: Node): Segment
  {
    Segment(n.fileId, n.amount)
  }

  /** The segment node `id` holds, or an empty one for an id outside the
      arena. */
  function SegmentAt(nodes: map<nat, Node>, id: nat): Segment
  {
    if id in nodes then SegmentOf(nodes[id]) else Segment(None, 0)
  }

  /** The segments of the list, in order. */
  ghost function View(nodes: map<nat, Node>, ids: seq<nat>): (r: seq<Segment>)
    requires InNodes(nodes, ids)
    ensures |r| == |ids| && forall i {:trigger r[i]} :: 0 <= i < |ids| ==> r[i] == SegmentOf(nodes[ids[i]])
  {
    seq(|ids|, i requires 0 <= i < |ids| => SegmentAt(nodes, ids[i]))
  }

  lemma EmptyValid()
    ensures Valid(Empty, [])
  {
  }

  /** `push` appends one segment, under a fresh id. */
  lemma PushAppends(d: Disk, ids: seq<nat>, amount: nat, fileId: Option<nat>)
    requires Valid(d, ids)
    ensures |d.nodes| !in ids
    ensures Valid(Push(d, amount, fileId), ids + [|d.nodes|])
    ensures View(Push(d, amount, fileId).nodes, ids + [|d.nodes|]) == View(d.nodes, ids) + [Segment(fileId, amount)]
    ensures Push(d, amount, fileId).finger == if d.finger.None? then Some(|d.nodes|) else d.finger
  {
    var n := |d.nodes|;
    var r := Push(d, amount, fileId);
    assert n !in d.nodes;
    PushValid(d, ids, amount, fileId);
    PushView(d, ids, amount, fileId);
  }

  lemma PushValid(d: Disk, ids: seq<nat>, amount: nat, fileId: Option<nat>)
    requires Valid(d, ids)
    ensures Valid(Push(d, amount, fileId), ids + [|d.nodes|])
  {
    var n := |d.nodes|;
    var r := Push(d, amount, fileId);
    var ids' := ids + [n];
    assert n !in d.nodes;
    assert r.nodes.Keys == d.nodes.Keys + {n};
    assert |r.nodes| == n + 1;
    assert Dense(r.nodes);
    DistinctAppend(ids, n);
    assert InNodes(r.nodes, ids');
    PushLinks(d, ids, amount, fileId);
  }

  lemma PushView(d: Disk, ids: seq<nat>, amount: nat, fileId: Option<nat>)
    requires Valid(d, ids)
    ensures View(Push(d, amount, fileId).nodes, ids + [|d.nodes|]) == View(d.nodes, ids) + [Segment(fileId, amount)]
  {
    var n := |d.nodes|;
    var r := Push(d, amount, fileId);
    assert n !in d.nodes;
    assert forall j {:trigger r.nodes[ids[j]]} :: 0 <= j < |ids| ==> r.nodes[ids[j]].fileId == d.nodes[ids[j]].fileId && r.nodes[ids[j]].amount == d.nodes[ids[j]].amount;
  }

  lemma PushLinks(d: Disk, ids: seq<nat>, amount: nat, fileId: Option<nat>)
    requires Valid(d, ids)
    requires InNodes(Push(d, amount, fileId).nodes, ids + [|d.nodes|])
    ensures NextLinks(Push(d, amount, fileId).nodes, ids + [|d.nodes|])
    ensures PrevLinks(Push(d, amount, fileId).nodes, ids + [|d.nodes|])
  {
    var n := |d.nodes|;
    var r := Push(d, amount, fileId);
    var ids' := ids + [n];
    assert n !in d.nodes;
    forall j {:trigger r.nodes[ids'[j]]} | 0 <= j < |ids'|
      ensures r.nodes[ids'[j]].next == NextId(ids', j)
      ensures r.nodes[ids'[j]].prev == PrevId(ids', j)
    {
      if j < |ids| {
        var id := ids[j];
        assert ids'[j] == id && id != n;
        if j + 1 < |ids| {
          assert id != d.tail.value;
          assert ids'[j + 1] == ids[j + 1];
        }
        if j > 0 { assert ids'[j - 1] == ids[j - 1]; }
      } else {
        assert ids'[j] == n;
      }
    }
  }

  /** `pop` drops the last segment; the arena keeps its size, so later ids
      stay fresh. */
  lemma PopDropsLast(d: Disk, ids: seq<nat>)
    requires Valid(d, ids) && |ids| > 0
    ensures Valid(Pop(d), ids[..|ids| - 1])
    ensures View(Pop(d).nodes, ids[..|ids| - 1]) == View(d.nodes, ids)[..|ids| - 1]
    ensures |Pop(d).nodes| == |d.nodes| && Pop(d).finger == d.finger
  {
    var r := Pop(d);
    var ids' := ids[..|ids| - 1];
    assert d.tail == Some(ids[|ids| - 1]);
    DistinctTake(ids, |ids| - 1);
    if |ids| == 1 {
      assert d.nodes[ids[0]].prev == None;
    } else {
      var p := ids[|ids| - 2];
      assert d.nodes[ids[|ids| - 1]].prev == Some(p);
      DistinctFrom(ids, |ids| - 2);
      assert forall k :: k in r.nodes <==> k in d.nodes;
      forall i {:trigger r.nodes[ids'[i]]} | 0 <= i < |ids'|
        ensures r.nodes[ids'[i]] == if i + 1 < |ids'| then d.nodes[ids'[i]] else d.nodes[ids'[i]].(next := None)
      {
      }
      forall j {:trigger r.nodes[ids'[j]]} | 0 <= j < |ids'|
        ensures r.nodes[ids'[j]].prev == PrevId(ids', j)
      {
      }
    }
  }

  /** `insert_after_finger` splices one segment in after the finger's
      position, under a fresh id; the finger stays. */
  lemma InsertSplices(d: Disk, ids: seq<nat>, i: nat, amount: nat, fileId: Option<nat>)
    requires Valid(d, ids) && i < |ids| && d.finger == Some(ids[i])
    ensures |d.nodes| !in ids
    ensures Valid(InsertAfterFinger(d, amount, fileId), ids[..i + 1] + [|d.nodes|] + ids[i + 1..])
    ensures View(InsertAfterFinger(d, amount, fileId).nodes, ids[..i + 1] + [|d.nodes|] + ids[i + 1..])
              == View(d.nodes, ids)[..i + 1] + [Segment(fileId, amount)] + View(d.nodes, ids)[i + 1..]
    ensures InsertAfterFinger(d, amount, fileId).finger == d.finger
  {
    var r := InsertAfterFinger(d, amount, fileId);
    InsertValid(d, ids, i, amount, fileId);
    assert d.nodes[ids[i]].next == NextId(ids, i);
    DistinctFrom(ids, i);
    InsertNodes(d, ids[i], amount, fileId);
    ViewSplice(d.nodes, r.nodes, ids, i, |d.nodes|);
  }

  lemma InsertValid(d: Disk, ids: seq<nat>, i: nat, amount: nat, fileId: Option<nat>)
    requires Valid(d, ids) && i < |ids| && d.finger == Some(ids[i])
    ensures |d.nodes| !in ids
    ensures Valid(InsertAfterFinger(d, amount, fileId), ids[..i + 1] + [|d.nodes|] + ids[i + 1..])
  {
    var n := |d.nodes|;
    var r := InsertAfterFinger(d, amount, fileId);
    var ids' := ids[..i + 1] + [n] + ids[i + 1..];
    assert n !in d.nodes;
    assert d.nodes[ids[i]].next == NextId(ids, i);
    DistinctFrom(ids, i);
    InsertDense(d, ids[i], amount, fileId);
    assert InNodes(r.nodes, ids') by {
      SpliceFacts(ids, i, n);
    }
    assert Distinct(ids') by {
      DistinctSplice(ids, i, n);
    }
    InsertLinks(d, ids, i, amount, fileId);
    assert r.head == Some(ids'[0]) && r.tail == Some(ids'[|ids'| - 1]) by {
      SpliceFacts(ids, i, n);
      if i + 1 < |ids| {
        assert ids'[|ids'| - 1] == ids[|ids| - 1];
      }
    }
  }

  /** Splicing an id into the list splices its segment into the view,
      when no listed node's segment changes. */
  lemma ViewSplice(nodes: map<nat, Node>, nodes': map<nat, Node>, ids: seq<nat>, i: nat, n: nat)
    requires InNodes(nodes, ids) && i < |ids| && n in nodes'
    requires forall k :: k in nodes ==> k in nodes' && SegmentOf(nodes'[k]) == SegmentOf(nodes[k])
    ensures InNodes(nodes', ids[..i + 1] + [n] + ids[i + 1..])
    ensures View(nodes', ids[..i + 1] + [n] + ids[i + 1..])
              == View(nodes, ids)[..i + 1] + [SegmentOf(nodes'[n])] + View(nodes, ids)[i + 1..]
  {
    var ids' := ids[..i + 1] + [n] + ids[i + 1..];
    SpliceFacts(ids, i, n);
    var v := View(nodes, ids);
    var w := v[..i + 1] + [SegmentOf(nodes'[n])] + v[i + 1..];
    assert |w| == |ids'|;
    forall j | 0 <= j < |ids'|
      ensures View(nodes', ids')[j] == w[j]
    {
      if j <= i {
        assert ids'[j] == ids[j] && w[j] == v[j];
      } else if j > i + 1 {
        assert ids'[j] == ids[j - 1] && w[j] == v[j - 1];
      }
    }
  }

  /** What `insert_after_finger` does to the arena, node by node. */
  lemma InsertNodes(d: Disk, f: nat, amount: nat, fileId: Option<nat>)
    requires f in d.nodes && d.finger == Some(f) && |d.nodes| !in d.nodes
    requires d.nodes[f].next.Some? ==> d.nodes[f].next.value in d.nodes && d.nodes[f].next.value != f
    ensures var r := InsertAfterFinger(d, amount, fileId);
      && r.nodes.Keys == d.nodes.Keys + {|d.nodes|}
      && r.nodes[|d.nodes|] == Node(fileId, amount, Some(f), d.nodes[f].next)
      && r.nodes[f] == d.nodes[f].(next := Some(|d.nodes|))
      && (d.nodes[f].next.Some? ==> r.nodes[d.nodes[f].next.value] == d.nodes[d.nodes[f].next.value].(prev := Some(|d.nodes|)))
      && (forall k :: k in d.nodes && k != f && Some(k) != d.nodes[f].next ==> r.nodes[k] == d.nodes[k])
  {
  }

  /** `insert_after_finger` adds exactly the fresh id to the arena. */
  lemma InsertDense(d: Disk, f: nat, amount: nat, fileId: Option<nat>)
    requires Dense(d.nodes) && f in d.nodes && d.finger == Some(f)
    requires d.nodes[f].next.Some? ==> d.nodes[f].next.value in d.nodes && d.nodes[f].next.value != f
    ensures var r := InsertAfterFinger(d, amount, fileId);
      Dense(r.nodes) && r.nodes.Keys == d.nodes.Keys + {|d.nodes|}
  {
    var r := InsertAfterFinger(d, amount, fileId);
    assert |d.nodes| !in d.nodes;
    InsertNodes(d, f, amount, fileId);
    assert |r.nodes| == |d.nodes| + 1;
  }

  /** Positions in `ids` with `n` spliced in after position `i`. */
  lemma SpliceFacts(ids: seq<nat>, i: nat, n: nat)
    requires i < |ids|
    ensures var s := ids[..i + 1] + [n] + ids[i + 1..];
            |s| == |ids| + 1 && s[i + 1] == n
            && (forall j {:trigger s[j]} :: 0 <= j <= i ==> s[j] == ids[j])
            && (forall j {:trigger s[j]} :: i + 1 < j < |s| ==> s[j] == ids[j - 1])
  {
  }

  /** The links after `insert_after_finger`, position by position. */
  lemma InsertLinks(d: Disk, ids: seq<nat>, i: nat, amount: nat, fileId: Option<nat>)
    requires Valid(d, ids) && i < |ids| && d.finger == Some(ids[i])
    requires InNodes(InsertAfterFinger(d, amount, fileId).nodes, ids[..i + 1] + [|d.nodes|] + ids[i + 1..])
    ensures NextLinks(InsertAfterFinger(d, amount, fileId).nodes, ids[..i + 1] + [|d.nodes|] + ids[i + 1..])
    ensures PrevLinks(InsertAfterFinger(d, amount, fileId).nodes, ids[..i + 1] + [|d.nodes|] + ids[i + 1..])
  {
    InsertLinksUpTo(d, ids, i, amount, fileId);
    InsertLinksAfter(d, ids, i, amount, fileId);
  }

  /** The links up to the new node. */
  lemma InsertLinksUpTo(d: Disk, ids: seq<nat>, i: nat, amount: nat, fileId: Option<nat>)
    requires Valid(d, ids) && i < |ids| && d.finger == Some(ids[i])
    requires InNodes(InsertAfterFinger(d, amount, fileId).nodes, ids[..i + 1] + [|d.nodes|] + ids[i + 1..])
    ensures var r := InsertAfterFinger(d, amount, fileId);
            var ids': seq<nat> := ids[..i + 1] + [|d.nodes|] + ids[i + 1..];
            forall j {:trigger r.nodes[ids'[j]]} :: 0 <= j <= i + 1 ==>
              r.nodes[ids'[j]].next == NextId(ids', j) && r.nodes[ids'[j]].prev == PrevId(ids', j)
  {
    var n := |d.nodes|;
    var r := InsertAfterFinger(d, amount, fileId);
    var ids' := ids[..i + 1] + [n] + ids[i + 1..];
    assert n !in d.nodes;
    assert d.nodes[ids[i]].next == NextId(ids, i);
    DistinctFrom(ids, i);
    if i + 1 < |ids| { DistinctFrom(ids, i + 1); }
    InsertNodes(d, ids[i], amount, fileId);
    SpliceFacts(ids, i, n);
    forall j {:trigger r.nodes[ids'[j]]} | 0 <= j <= i + 1
      ensures r.nodes[ids'[j]].next == NextId(ids', j)
      ensures r.nodes[ids'[j]].prev == PrevId(ids', j)
    {
      if j < i {
        assert ids'[j] == ids[j] && ids[j] != ids[i] && ids[j] != n;
        assert ids'[j + 1] == ids[j + 1];
        if i + 1 < |ids| { assert ids[j] != ids[i + 1]; }
        if j > 0 { assert ids'[j - 1] == ids[j - 1]; }
      } else if j == i {
        assert ids'[j] == ids[i];
        if i > 0 { assert ids'[j - 1] == ids[j - 1] && ids[i] != ids[i - 1]; }
        if i + 1 < |ids| { assert ids[i] != ids[i + 1]; }
      } else {
        assert ids'[j] == n;
      }
    }
  }

  /** The links past the new node. */
  lemma InsertLinksAfter(d: Disk, ids: seq<nat>, i: nat, amount: nat, fileId: Option<nat>)
    requires Valid(d, ids) && i < |ids| && d.finger == Some(ids[i])
    requires InNodes(InsertAfterFinger(d, amount, fileId).nodes, ids[..i + 1] + [|d.nodes|] + ids[i + 1..])
    ensures var r := InsertAfterFinger(d, amount, fileId);
            var ids': seq<nat> := ids[..i + 1] + [|d.nodes|] + ids[i + 1..];
            forall j {:trigger r.nodes[ids'[j]]} :: i + 1 < j < |ids'| ==>
              r.nodes[ids'[j]].next == NextId(ids', j) && r.nodes[ids'[j]].prev == PrevId(ids', j)
  {
    var n := |d.nodes|;
    var r := InsertAfterFinger(d, amount, fileId);
    var ids' := ids[..i + 1] + [n] + ids[i + 1..];
    assert n !in d.nodes;
    assert d.nodes[ids[i]].next == NextId(ids, i);
    DistinctFrom(ids, i);
    if i + 1 < |ids| { DistinctFrom(ids, i + 1); }
    InsertNodes(d, ids[i], amount, fileId);
    SpliceFacts(ids, i, n);
    forall j {:trigger r.nodes[ids'[j]]} | i + 1 < j < |ids'|
      ensures r.nodes[ids'[j]].next == NextId(ids', j)
      ensures r.nodes[ids'[j]].prev == PrevId(ids', j)
    {
      var id := ids[j - 1];
      assert ids'[j] == id && id != n && id != ids[i];
      if j == i + 2 {
        assert ids'[j - 1] == n;
      } else {
        assert ids'[j - 1] == ids[j - 2] && id != ids[i + 1];
      }
      if j + 1 < |ids'| { assert ids'[j + 1] == ids[j]; }
    }
  }

  /** `finger_next` moves the finger one place along the list. */
  lemma FingerNextAdvances(d: Disk, ids: seq<nat>, i: nat)
    requires Valid(d, ids) && i < |ids| && d.finger == Some(ids[i])
    ensures FingerNext(d).finger == if i + 1 < |ids| then Some(ids[i + 1]) else None
    ensures FingerNext(d).nodes == d.nodes && FingerNext(d).head == d.head && FingerNext(d).tail == d.tail
  {
  }

  /** Changing what listed nodes hold, but no link and no key, keeps the
      list intact. */
  lemma SameLinksValid(d: Disk, r: Disk, ids: seq<nat>)
    requires Valid(d, ids)
    requires r.nodes.Keys == d.nodes.Keys && r.head == d.head && r.tail == d.tail
    requires forall j {:trigger r.nodes[ids[j]]} :: 0 <= j < |ids| ==> r.nodes[ids[j]].next == d.nodes[ids[j]].next && r.nodes[ids[j]].prev == d.nodes[ids[j]].prev
    ensures Valid(r, ids)
  {
    assert |r.nodes| == |r.nodes.Keys| == |d.nodes.Keys| == |d.nodes|;
    assert Dense(r.nodes);
    assert InNodes(r.nodes, ids);
    assert NextLinks(r.nodes, ids);
    assert PrevLinks(r.nodes, ids);
  }

  /** `set_amount` changes one segment's amount and no link. */
  lemma SetAmountChangesOne(d: Disk, ids: seq<nat>, i: nat, amount: nat)
    requires Valid(d, ids) && i < |ids|
    ensures Valid(SetAmount(d, ids[i], amount), ids)
    ensures View(SetAmount(d, ids[i], amount).nodes, ids) == View(d.nodes, ids)[i := Segment(d.nodes[ids[i]].fileId, amount)]
  {
    var r := SetAmount(d, ids[i], amount);
    assert r.nodes.Keys == d.nodes.Keys;
    DistinctFrom(ids, i);
    assert forall j :: 0 <= j < |ids| ==> ids[j] in r.nodes;
    SameLinksValid(d, r, ids);
    assert forall j {:trigger r.nodes[ids[j]]} :: 0 <= j < |ids| && j != i ==> r.nodes[ids[j]] == d.nodes[ids[j]];
    var v := View(r.nodes, ids);
    assert v == View(d.nodes, ids)[i := Segment(d.nodes[ids[i]].fileId, amount)];
  }

  /** `set_file_id` changes one segment's file and no link. */
  lemma SetFileIdChangesOne(d: Disk, ids: seq<nat>, i: nat, fileId: nat)
    requires Valid(d, ids) && i < |ids|
    ensures Valid(SetFileId(d, ids[i], fileId), ids)
    ensures View(SetFileId(d, ids[i], fileId).nodes, ids) == View(d.nodes, ids)[i := Segment(Some(fileId), d.nodes[ids[i]].amount)]
  {
    var r := SetFileId(d, ids[i], fileId);
    assert r.nodes.Keys == d.nodes.Keys;
    DistinctFrom(ids, i);
    assert forall j :: 0 <= j < |ids| ==> ids[j] in r.nodes;
    SameLinksValid(d, r, ids);
    assert forall j {:trigger r.nodes[ids[j]]} :: 0 <= j < |ids| && j != i ==> r.nodes[ids[j]] == d.nodes[ids[j]];
    var v := View(r.nodes, ids);
    assert v == View(d.nodes, ids)[i := Segment(Some(fileId), d.nodes[ids[i]].amount)];
  }

  // ---------------------------------------------------------------------
  // Blocks per file

  /** The file blocks of a segment, as a multiset of file ids: file `f`
      occurs once per block. Free segments hold none. */
  function Bag(s: Segment): (r: multiset<nat>)
    ensures s.fileId.None? ==> r == multiset{}
  {
    if s.fileId.Some? then multiset{}[s.fileId.value := s.amount] else multiset{}
  }

  /** The file blocks of a list of segments. */
  function Blocks(segs: seq<Segment>): multiset<nat>
  {
    if |segs| == 0 then multiset{} else Bag(segs[0]) + Blocks(segs[1..])
  }

  lemma {:induction false} BlocksAppend(a: seq<Segment>, b: seq<Segment>)
    ensures Blocks(a + b) == Blocks(a) + Blocks(b)
  {
    if |a| > 0 {
      assert (a + b)[1..] == a[1..] + b;
      BlocksAppend(a[1..], b);
    } else {
      assert a + b == b;
    }
  }

  lemma BlocksSingle(x: Segment)
    ensures Blocks([x]) == Bag(x)
  {
    assert [x][1..] == [];
  }

  /** Replacing one segment swaps its blocks for the new segment's. */
  lemma BlocksUpdate(s: seq<Segment>, k: nat, x: Segment)
    requires k < |s|
    ensures Blocks(s[k := x]) + Bag(s[k]) == Blocks(s) + Bag(x)
  {
    assert s == s[..k] + [s[k]] + s[k + 1..];
    assert s[k := x] == s[..k] + [x] + s[k + 1..];
    BlocksAppend(s[..k] + [s[k]], s[k + 1..]);
    BlocksAppend(s[..k], [s[k]]);
    BlocksAppend(s[..k] + [x], s[k + 1..]);
    BlocksAppend(s[..k], [x]);
    BlocksSingle(s[k]);
    BlocksSingle(x);
  }

  lemma BlocksDropLast(s: seq<Segment>)
    requires |s| > 0
    ensures Blocks(s[..|s| - 1]) + Bag(s[|s| - 1]) == Blocks(s)
  {
    assert s == s[..|s| - 1] + [s[|s| - 1]];
    BlocksAppend(s[..|s| - 1], [s[|s| - 1]]);
    BlocksSingle(s[|s| - 1]);
  }

  lemma BlocksSplice(s: seq<Segment>, k: nat, x: Segment)
    requires k < |s|
    ensures Blocks(s[..k + 1] + [x] + s[k + 1..]) == Blocks(s) + Bag(x)
  {
    assert s == s[..k + 1] + s[k + 1..];
    BlocksAppend(s[..k + 1] + [x], s[k + 1..]);
    BlocksAppend(s[..k + 1], [x]);
    BlocksAppend(s[..k + 1], s[k + 1..]);
    BlocksSingle(x);
  }

  // ---------------------------------------------------------------------
  // The compaction, block by block

  /** Every block holds a file. */
  ghost predicate NoFree(b: seq<Option<nat>>)
  {
    forall k :: 0 <= k < |b| ==> b[k].Some?
  }

  /** Files first, then free space: no file block comes after a free one. */
  ghost predicate Packed(b: seq<Option<nat>>)
  {
    forall j, k :: 0 <= j < k < |b| && b[j].None? ==> b[k].None?
  }

  /** The position of the leftmost free block, or `|b|` when every block
      holds a file. */
  function LeftmostFree(b: seq<Option<nat>>): (i: nat)
    ensures i <= |b|
    ensures forall k :: 0 <= k < i ==> b[k].Some?
    ensures i < |b| ==> b[i].None?
    decreases |b|
  {
    if |b| == 0 || b[0].None? then 0 else 1 + LeftmostFree(b[1..])
  }

  /** The puzzle's compaction, one block at a time: while a free block
      comes before a file block, move the rightmost file block into the
      leftmost free block, which leaves the block it came from free. */
  function CompactBlocks(b: seq<Option<nat>>): seq<Option<nat>>
    decreases |b|
  {
    if |b| == 0 then []
    else
      var last := b[|b| - 1];
      var rest := b[..|b| - 1];
      var i := LeftmostFree(rest);
      if last.None? then CompactBlocks(rest) + [None]
      else if i == |rest| then b
      else CompactBlocks(rest[i := last]) + [None]
  }

  /** The block-by-block compaction keeps every block. */
  lemma {:induction false} CompactBlocksKeeps(b: seq<Option<nat>>)
    ensures |CompactBlocks(b)| == |b| && multiset(CompactBlocks(b)) == multiset(b)
    decreases |b|
  {
    if |b| > 0 {
      var last := b[|b| - 1];
      var rest := b[..|b| - 1];
      assert b == rest + [last];
      var i := LeftmostFree(rest);
      if last.None? {
        CompactBlocksKeeps(rest);
      } else if i < |rest| {
        UpdateMultiset(rest, i, last);
        CompactBlocksKeeps(rest[i := last]);
      }
    }
  }

  /** The block-by-block compaction leaves the files first and the free
      space after them. */
  lemma {:induction false} CompactBlocksPacked(b: seq<Option<nat>>)
    ensures Packed(CompactBlocks(b))
    decreases |b|
  {
    if |b| > 0 {
      var last := b[|b| - 1];
      var rest := b[..|b| - 1];
      var i := LeftmostFree(rest);
      if last.None? {
        CompactBlocksPacked(rest);
        PackedAppendFree(CompactBlocks(rest));
      } else if i < |rest| {
        CompactBlocksPacked(rest[i := last]);
        PackedAppendFree(CompactBlocks(rest[i := last]));
      } else {
        assert forall k :: 0 <= k < |rest| ==> rest[k] == b[k];
        assert forall k :: 0 <= k < |b| ==> b[k].Some?;
      }
    }
  }

  lemma PackedAppendFree(b: seq<Option<nat>>)
    requires Packed(b)
    ensures Packed(b + [None])
  {
  }

  lemma UpdateMultiset(s: seq<Option<nat>>, i: nat, x: Option<nat>)
    requires i < |s|
    ensures multiset(s[i := x]) + multiset{s[i]} == multiset(s) + multiset{x}
  {
    assert s == s[..i] + [s[i]] + s[i + 1..];
    assert s[i := x] == s[..i] + [x] + s[i + 1..];
  }

  /** Free blocks at the end of the disk stay where they are. */
  lemma {:induction false} CompactAppendFree(x: seq<Option<nat>>, n: nat)
    ensures CompactBlocks(x + Run(None, n)) == CompactBlocks(x) + Run(None, n)
    decreases n
  {
    if n > 0 {
      var b := x + Run(None, n);
      assert b[..|b| - 1] == x + Run(None, n - 1) && b[|b| - 1] == None;
      CompactDropFree(b);
      CompactAppendFree(x, n - 1);
      assert Run(None, n - 1) + [None] == Run(None, n);
    } else {
      assert x + Run(None, 0) == x;
    }
  }

  /** A free last block stays last. */
  lemma CompactDropFree(b: seq<Option<nat>>)
    requires |b| > 0 && b[|b| - 1].None?
    ensures CompactBlocks(b) == CompactBlocks(b[..|b| - 1]) + [None]
  {
  }

  /** A disk without free blocks is already compact. */
  lemma CompactNoFree(b: seq<Option<nat>>)
    requires NoFree(b)
    ensures CompactBlocks(b) == b
  {
    if |b| > 0 {
      var rest := b[..|b| - 1];
      assert forall k :: 0 <= k < |rest| ==> rest[k] == b[k];
      assert LeftmostFree(rest) == |rest|;
    }
  }

  /** One move: with only files before the leftmost free block, the last
      block's file takes that free block's place. */
  lemma MoveOneBlock(p: seq<Option<nat>>, q: seq<Option<nat>>, f: nat)
    requires NoFree(p)
    ensures CompactBlocks(p + [None] + q + [Some(f)]) == CompactBlocks(p + [Some(f)] + q) + [None]
  {
    var b := p + [None] + q + [Some(f)];
    var rest := b[..|b| - 1];
    assert rest == p + [None] + q;
    assert forall k :: 0 <= k < |p| ==> rest[k] == p[k];
    assert rest[|p|] == None;
    assert LeftmostFree(rest) == |p|;
    assert rest[|p| := Some(f)] == p + [Some(f)] + q;
  }

  /** `s` moves in a row: the first `s` free blocks of a free run that only
      files precede take `s` blocks from a file run at the end. */
  lemma {:induction false} MoveBlockRun(p: seq<Option<nat>>, a: nat, m: seq<Option<nat>>, f: nat, c: nat, s: nat)
    requires NoFree(p) && s <= a && s <= c
    ensures CompactBlocks(p + Run(None, a) + m + Run(Some(f), c))
         == CompactBlocks(p + Run(Some(f), s) + Run(None, a - s) + m + Run(Some(f), c - s)) + Run(None, s)
    decreases s
  {
    var x0 := p + Run(None, a) + m + Run(Some(f), c);
    if s == 0 {
      assert p + Run(Some(f), s) + Run(None, a - s) + m + Run(Some(f), c - s) == x0;
      var y := CompactBlocks(x0);
      assert y + Run(None, s) == y;
    } else {
      var x1 := p + Run(Some(f), s - 1) + Run(None, a - (s - 1)) + m + Run(Some(f), c - (s - 1));
      var x2 := p + Run(Some(f), s) + Run(None, a - s) + m + Run(Some(f), c - s);
      MoveBlockRun(p, a, m, f, c, s - 1);
      assert CompactBlocks(x0) == CompactBlocks(x1) + Run(None, s - 1);
      var p', q := MoveShapes(p, a, m, f, c, s);
      MoveOneBlock(p', q, f);
      var y := CompactBlocks(x2);
      assert CompactBlocks(x1) == y + [None];
      FreeRunCons(y, s - 1);
    }
  }

  lemma FreeRunCons(y: seq<Option<nat>>, n: nat)
    ensures y + [None] + Run(None, n) == y + Run(None, n + 1)
  {
    assert [None] + Run(None, n) == Run(None, n + 1);
  }

  /** How the blocks before and after the `s`-th move line up. */
  lemma MoveShapes(p: seq<Option<nat>>, a: nat, m: seq<Option<nat>>, f: nat, c: nat, s: nat)
    returns (p': seq<Option<nat>>, q: seq<Option<nat>>)
    requires NoFree(p) && 0 < s <= a && s <= c
    ensures NoFree(p')
    ensures p + Run(Some(f), s - 1) + Run(None, a - (s - 1)) + m + Run(Some(f), c - (s - 1))
         == p' + [None] + q + [Some(f)]
    ensures p' + [Some(f)] + q == p + Run(Some(f), s) + Run(None, a - s) + m + Run(Some(f), c - s)
  {
    p' := p + Run(Some(f), s - 1);
    q := Run(None, a - s) + m + Run(Some(f), c - s);
    assert Run(None, a - (s - 1)) == [None] + Run(None, a - s);
    assert Run(Some(f), c - (s - 1)) == Run(Some(f), c - s) + [Some(f)];
    assert Run(Some(f), s - 1) + [Some(f)] == Run(Some(f), s);
  }

  /** Laying out segments one after another lays out their blocks one
      after another. */
  lemma {:induction false} ExpandAppend(v: seq<Segment>, w: seq<Segment>)
    ensures Expand(v + w) == Expand(v) + Expand(w)
    decreases |v|
  {
    if |v| > 0 {
      assert (v + w)[1..] == v[1..] + w;
      ExpandAppend(v[1..], w);
    } else {
      assert v + w == w;
    }
  }

  lemma ExpandSingle(x: Segment)
    ensures Expand([x]) == Run(x.fileId, x.amount)
  {
    assert [x][1..] == [];
  }

  /** Segments that all hold files lay out blocks that all hold files. */
  lemma {:induction false} ExpandFiles(v: seq<Segment>)
    requires FilesBefore(v, |v|)
    ensures NoFree(Expand(v))
    decreases |v|
  {
    if |v| > 0 {
      ExpandFiles(v[1..]);
    }
  }


  /** No segment when `amount` is 0, otherwise one of `amount` blocks. */
  function Rest(fileId: Option<nat>, amount: nat): seq<Segment>
  {
    if amount > 0 then [Segment(fileId, amount)] else []
  }

  lemma ExpandRest(fileId: Option<nat>, amount: nat)
    ensures Expand(Rest(fileId, amount)) == Run(fileId, amount)
  {
    if amount > 0 {
      ExpandSingle(Segment(fileId, amount));
    } else {
      assert Run(fileId, 0) == [];
    }
  }

  /** The segments after the free segment at `i` took as many blocks of the
      last segment's file as fit: blocks the last segment has left stay at
      the end, and it goes when none are left. */
  function Filled(v: seq<Segment>, i: nat): seq<Segment>
    requires i < |v| - 1
  {
    var tail := v[|v| - 1];
    var stored := Stored(v[i].amount, tail.amount);
    v[..i] + [Segment(tail.fileId, stored)] + v[i + 1..|v| - 1] + Rest(tail.fileId, tail.amount - stored)
  }

  /** The segments after one move of `solve`: `Filled`, with the free space
      the segment at `i` has left just after it. */
  function Moved(v: seq<Segment>, i: nat): seq<Segment>
    requires i < |v| - 1
  {
    var tail := v[|v| - 1];
    var stored := Stored(v[i].amount, tail.amount);
    v[..i] + [Segment(tail.fileId, stored)] + Rest(None, v[i].amount - stored)
      + v[i + 1..|v| - 1] + Rest(tail.fileId, tail.amount - stored)
  }

  lemma ExpandFour(a: seq<Segment>, b: seq<Segment>, c: seq<Segment>, e: seq<Segment>)
    ensures Expand(a + b + c + e) == Expand(a) + Expand(b) + Expand(c) + Expand(e)
  {
    ExpandAppend(a + b + c, e);
    ExpandAppend(a + b, c);
    ExpandAppend(a, b);
  }

  lemma SplitAround<T>(v: seq<T>, i: nat)
    requires i < |v| - 1
    ensures v == v[..i] + [v[i]] + v[i + 1..|v| - 1] + [v[|v| - 1]]
  {
    assert v == v[..i] + v[i..];
    assert v[i..] == [v[i]] + v[i + 1..];
    assert v[i + 1..] == v[i + 1..|v| - 1] + [v[|v| - 1]];
  }

  /** The blocks of a disk around its segment `i` and its last segment. */
  lemma ExpandAround(v: seq<Segment>, i: nat)
    requires i < |v| - 1
    ensures Expand(v) == Expand(v[..i]) + Run(v[i].fileId, v[i].amount) + Expand(v[i + 1..|v| - 1])
                         + Run(v[|v| - 1].fileId, v[|v| - 1].amount)
  {
    var last := |v| - 1;
    var a, b, c, e := v[..i], [v[i]], v[i + 1..last], [v[last]];
    SplitAround(v, i);
    ExpandFour(a, b, c, e);
    ExpandSingle(v[i]);
    ExpandSingle(v[last]);
  }

  /** The blocks after one move. */
  lemma ExpandMoved(v: seq<Segment>, i: nat)
    requires i < |v| - 1
    ensures var tail := v[|v| - 1];
            var stored := Stored(v[i].amount, tail.amount);
            Expand(Moved(v, i)) == Expand(v[..i]) + Run(tail.fileId, stored) + Run(None, v[i].amount - stored)
                                   + Expand(v[i + 1..|v| - 1]) + Run(tail.fileId, tail.amount - stored)
  {
    var tail := v[|v| - 1];
    var stored := Stored(v[i].amount, tail.amount);
    var a := v[..i];
    var b := [Segment(tail.fileId, stored)];
    var c := Rest(None, v[i].amount - stored);
    var m := v[i + 1..|v| - 1];
    var e := Rest(tail.fileId, tail.amount - stored);
    ExpandAppend(a + b + c + m, e);
    ExpandAppend(a + b + c, m);
    ExpandAppend(a + b, c);
    ExpandAppend(a, b);
    ExpandSingle(Segment(tail.fileId, stored));
    ExpandRest(None, v[i].amount - stored);
    ExpandRest(tail.fileId, tail.amount - stored);
  }

  /** One move of `solve` is `Stored` moves of the block-by-block
      compaction: it changes the disk `CompactBlocks` ends with only by the
      free blocks it leaves at the end. */
  lemma MovedBlocks(v: seq<Segment>, i: nat)
    requires i < |v| - 1 && FilesBefore(v, i) && v[i].fileId.None? && v[|v| - 1].fileId.Some?
    ensures CompactBlocks(Expand(v))
         == CompactBlocks(Expand(Moved(v, i))) + Run(None, Stored(v[i].amount, v[|v| - 1].amount))
  {
    var tail := v[|v| - 1];
    var stored := Stored(v[i].amount, tail.amount);
    var p, m := Expand(v[..i]), Expand(v[i + 1..|v| - 1]);
    ExpandAround(v, i);
    ExpandMoved(v, i);
    ExpandFilesBefore(v, i);
    MoveBlockRun(p, v[i].amount, m, tail.fileId.value, tail.amount, stored);
  }

  /** The segments before the finger lay out only file blocks. */
  lemma ExpandFilesBefore(v: seq<Segment>, i: nat)
    requires i <= |v| && FilesBefore(v, i)
    ensures NoFree(Expand(v[..i]))
  {
    assert FilesBefore(v[..i], i);
    ExpandFiles(v[..i]);
  }

  /** Popping a free last segment only drops free blocks from the end. */
  lemma DropFreeBlocks(v: seq<Segment>)
    requires |v| > 0 && v[|v| - 1].fileId.None?
    ensures CompactBlocks(Expand(v)) == CompactBlocks(Expand(v[..|v| - 1])) + Run(None, v[|v| - 1].amount)
  {
    ExpandLast(v);
    CompactAppendFree(Expand(v[..|v| - 1]), v[|v| - 1].amount);
  }

  /** When the finger meets the tail, the disk is compact: only files come
      before the last segment. */
  lemma SettledBlocks(v: seq<Segment>)
    requires |v| > 0 && FilesBefore(v, |v| - 1)
    ensures CompactBlocks(Expand(v)) == Expand(v)
  {
    var last := |v| - 1;
    var p := Expand(v[..last]);
    ExpandLast(v);
    ExpandFilesBefore(v, last);
    if v[last].fileId.None? {
      CompactAppendFree(p, v[last].amount);
      CompactNoFree(p);
    } else {
      NoFreeAppend(p, v[last].fileId.value, v[last].amount);
      CompactNoFree(Expand(v));
    }
  }

  lemma ExpandLast(v: seq<Segment>)
    requires |v| > 0
    ensures Expand(v) == Expand(v[..|v| - 1]) + Run(v[|v| - 1].fileId, v[|v| - 1].amount)
  {
    assert v == v[..|v| - 1] + [v[|v| - 1]];
    ExpandAppend(v[..|v| - 1], [v[|v| - 1]]);
    ExpandSingle(v[|v| - 1]);
  }

  lemma NoFreeAppend(p: seq<Option<nat>>, f: nat, n: nat)
    requires NoFree(p)
    ensures NoFree(p + Run(Some(f), n))
  {
  }


  // ---------------------------------------------------------------------
  // The compaction loop of `solve`

  /** Only file segments come before position `i`. */
  ghost predicate FilesBefore(v: seq<Segment>, i: nat)
  {
    forall j :: 0 <= j < i && j < |v| ==> v[j].fileId.Some?
  }

  /** The shape the compaction loop keeps: a valid list, the finger on
      position `i`, and only files before the finger. */
  ghost predicate Positioned(d: Disk, ids: seq<nat>, i: nat)
  {
    Valid(d, ids) && i < |ids| && d.finger == Some(ids[i]) && FilesBefore(View(d.nodes, ids), i)
  }

  /** Positions left to pass, counting a free segment under the finger as
      half a position. */
  function Progress(v: seq<Segment>, i: nat): int
    requires i < |v|
  {
    2 * (|v| - i) + if v[i].fileId.None? then 1 else 0
  }

  /** How many blocks of the tail file fit into the free segment under the
      finger: the smaller of the two amounts. */
  function Stored(free: nat, items: nat): (r: nat)
    ensures r <= free && r <= items && (r == free || r == items)
  {
    if free >= items then items else free
  }

  /** Lines 37-53 of `solve`: the finger's segment takes the tail's file
      and the amount moved. */
  function FillFinger(d: Disk): Disk
    requires d.finger.Some? && d.finger.value in d.nodes
    requires d.tail.Some? && d.tail.value in d.nodes && d.nodes[d.tail.value].fileId.Some?
  {
    var fingerId := d.finger.value;
    var tailId := d.tail.value;
    var stored := Stored(GetAmount(d, fingerId), GetAmount(d, tailId));
    SetAmount(SetFileId(d, fingerId, GetFileId(d, tailId)), fingerId, stored)
  }

  /** `FillFinger` rewrites the finger's node and nothing else. */
  lemma FillFingerNodes(d: Disk)
    requires d.finger.Some? && d.finger.value in d.nodes
    requires d.tail.Some? && d.tail.value in d.nodes && d.nodes[d.tail.value].fileId.Some?
    ensures var r := FillFinger(d); var f := d.finger.value;
      && r.nodes.Keys == d.nodes.Keys && r.head == d.head && r.tail == d.tail && r.finger == d.finger
      && r.nodes[f] == d.nodes[f].(fileId := d.nodes[d.tail.value].fileId,
                                   amount := Stored(d.nodes[f].amount, d.nodes[d.tail.value].amount))
      && forall k :: k in d.nodes && k != f ==> r.nodes[k] == d.nodes[k]
  {
  }

  /** Rewriting one listed node's contents, and no other node, rewrites
      one segment of the view. */
  lemma ViewUpdate(nodes: map<nat, Node>, nodes': map<nat, Node>, ids: seq<nat>, i: nat)
    requires InNodes(nodes, ids) && Distinct(ids) && i < |ids| && ids[i] in nodes'
    requires forall k :: k in nodes && k != ids[i] ==> k in nodes' && nodes'[k] == nodes[k]
    ensures InNodes(nodes', ids)
    ensures View(nodes', ids) == View(nodes, ids)[i := SegmentOf(nodes'[ids[i]])]
  {
    DistinctFrom(ids, i);
  }

  lemma FillFingerView(d: Disk, ids: seq<nat>, i: nat)
    requires Valid(d, ids) && i < |ids| - 1 && d.finger == Some(ids[i])
    requires d.nodes[ids[|ids| - 1]].fileId.Some?
    ensures Valid(FillFinger(d), ids)
    ensures View(FillFinger(d).nodes, ids) == View(d.nodes, ids)[i :=
              Segment(d.nodes[ids[|ids| - 1]].fileId, Stored(d.nodes[ids[i]].amount, d.nodes[ids[|ids| - 1]].amount))]
    ensures FillFinger(d).finger == d.finger && FillFinger(d).tail == d.tail
    ensures FillFinger(d).nodes[ids[|ids| - 1]] == d.nodes[ids[|ids| - 1]]
  {
    var r := FillFinger(d);
    FillFingerNodes(d);
    DistinctFrom(ids, i);
    SameLinksValid(d, r, ids);
    ViewUpdate(d.nodes, r.nodes, ids, i);
  }

  /** Lines 55-59 of `solve`: the tail keeps what did not fit, or is
      popped once empty. */
  function ShrinkTail(d: Disk, leftInTail: nat): Disk
    requires d.tail.Some? && d.tail.value in d.nodes
    requires d.nodes[d.tail.value].prev.Some? ==> d.nodes[d.tail.value].prev.value in d.nodes
  {
    if leftInTail > 0 then SetAmount(d, d.tail.value, leftInTail) else Pop(d)
  }

  /** Two runs of one file (or of free space) hold the blocks of one run of
      their total size. */
  lemma BagSplit(f: Option<nat>, x: nat, y: nat)
    ensures Bag(Segment(f, x)) + Bag(Segment(f, y)) == Bag(Segment(f, x + y))
  {
    if f.Some? {
      var t := f.value;
      forall g
        ensures (Bag(Segment(f, x)) + Bag(Segment(f, y)))[g] == Bag(Segment(f, x + y))[g]
      {
        assert Bag(Segment(f, x)) == multiset{}[t := x];
        assert Bag(Segment(f, y)) == multiset{}[t := y];
        assert Bag(Segment(f, x + y)) == multiset{}[t := x + y];
      }
    }
  }

  lemma Cancel(a: multiset<nat>, b: multiset<nat>, c: multiset<nat>)
    requires a + c == b + c
    ensures a == b
  {
    forall x
      ensures a[x] == b[x]
    {
      assert (a + c)[x] == (b + c)[x];
    }
  }

  lemma CancelThrough(a: multiset<nat>, m: multiset<nat>, b: multiset<nat>, c: multiset<nat>)
    requires a + c == m && m == b + c
    ensures a == b
  {
    Cancel(a, b, c);
  }

  /** Writing blocks into a free segment adds exactly those blocks. */
  lemma FillFreeBlocks(v: seq<Segment>, i: nat, x: Segment)
    requires i < |v| && v[i].fileId.None?
    ensures Blocks(v[i := x]) == Blocks(v) + Bag(x)
  {
    BlocksUpdate(v, i, x);
    assert Bag(v[i]) == multiset{};
    assert Blocks(v[i := x]) + multiset{} == Blocks(v[i := x]);
  }

  /** Taking `moved` blocks off a segment of `moved + rest` blocks removes
      exactly those blocks. */
  lemma ShrinkBlocks(v: seq<Segment>, k: nat, f: Option<nat>, moved: nat, rest: nat)
    requires k < |v| && v[k] == Segment(f, moved + rest)
    ensures Blocks(v[k := Segment(f, rest)]) + Bag(Segment(f, moved)) == Blocks(v)
  {
    BlocksUpdate(v, k, Segment(f, rest));
    BagSplit(f, moved, rest);
    var a := Blocks(v[k := Segment(f, rest)]);
    assert a + (Bag(Segment(f, moved)) + Bag(Segment(f, rest))) == Blocks(v) + Bag(Segment(f, rest));
    assert a + Bag(Segment(f, moved)) + Bag(Segment(f, rest)) == Blocks(v) + Bag(Segment(f, rest));
    Cancel(a + Bag(Segment(f, moved)), Blocks(v), Bag(Segment(f, rest)));
  }

  /** Moving some but not all blocks of the last segment into a free
      segment keeps every file's blocks. */
  lemma MoveSomeKeepsBlocks(v: seq<Segment>, i: nat, f: Option<nat>, stored: nat, rest: nat)
    requires i < |v| - 1 && v[i].fileId.None? && v[|v| - 1] == Segment(f, stored + rest)
    ensures Blocks(v[i := Segment(f, stored)][|v| - 1 := Segment(f, rest)]) == Blocks(v)
  {
    var last := |v| - 1;
    var filled := v[i := Segment(f, stored)];
    FillFreeBlocks(v, i, Segment(f, stored));
    assert filled[last] == Segment(f, stored + rest);
    ShrinkBlocks(filled, last, f, stored, rest);
    CancelThrough(Blocks(filled[last := Segment(f, rest)]), Blocks(filled), Blocks(v), Bag(Segment(f, stored)));
  }

  /** Moving all blocks of the last segment into a free segment and
      dropping the last segment keeps every file's blocks. */
  lemma MoveAllKeepsBlocks(v: seq<Segment>, i: nat)
    requires i < |v| - 1 && v[i].fileId.None?
    ensures Blocks(v[i := v[|v| - 1]][..|v| - 1]) == Blocks(v)
  {
    var filled := v[i := v[|v| - 1]];
    assert |filled| == |v| && filled[|filled| - 1] == v[|v| - 1];
    FillFreeBlocks(v, i, v[|v| - 1]);
    BlocksDropLast(filled);
    CancelThrough(Blocks(filled[..|filled| - 1]), Blocks(filled), Blocks(v), Bag(filled[|filled| - 1]));
  }

  /** A partial move, seen on the segments: files still fill everything
      before the finger, the finger now holds a file, and no block is lost. */
  lemma MoveSomeViews(v: seq<Segment>, w: seq<Segment>, i: nat, f: Option<nat>, stored: nat, rest: nat)
    requires i < |v| - 1 && v[i].fileId.None? && v[|v| - 1] == Segment(f, stored + rest) && f.Some?
    requires FilesBefore(v, i) && w == v[i := Segment(f, stored)][|v| - 1 := Segment(f, rest)]
    ensures FilesBefore(w, i) && w[i].fileId.Some? && Blocks(w) == Blocks(v)
  {
    MoveSomeKeepsBlocks(v, i, f, stored, rest);
  }

  /** A whole move, seen on the segments. */
  lemma MoveAllViews(v: seq<Segment>, w: seq<Segment>, i: nat)
    requires i < |v| - 1 && v[i].fileId.None? && v[|v| - 1].fileId.Some?
    requires FilesBefore(v, i) && w == v[i := v[|v| - 1]][..|v| - 1]
    ensures FilesBefore(w, i) && w[i].fileId.Some? && Blocks(w) == Blocks(v)
  {
    MoveAllKeepsBlocks(v, i);
  }

  /** Dropping a free last segment keeps every file's blocks. */
  lemma DropFreeKeepsBlocks(v: seq<Segment>)
    requires |v| > 0 && v[|v| - 1].fileId.None?
    ensures Blocks(v[..|v| - 1]) == Blocks(v)
  {
    BlocksDropLast(v);
  }

  /** The list after a partial move: the finger's segment holds the moved
      blocks and the tail keeps the rest. */
  lemma FillSomeShape(d: Disk, ids: seq<nat>, i: nat)
    requires Valid(d, ids) && i < |ids| - 1 && d.finger == Some(ids[i])
    requires d.nodes[ids[|ids| - 1]].fileId.Some?
    requires Stored(d.nodes[ids[i]].amount, d.nodes[ids[|ids| - 1]].amount) < d.nodes[ids[|ids| - 1]].amount
    ensures var tail := d.nodes[ids[|ids| - 1]];
            var stored := Stored(d.nodes[ids[i]].amount, tail.amount);
            var r := ShrinkTail(FillFinger(d), tail.amount - stored);
            Valid(r, ids) && r.finger == d.finger
    ensures var tail := d.nodes[ids[|ids| - 1]];
            var stored := Stored(d.nodes[ids[i]].amount, tail.amount);
            var r := ShrinkTail(FillFinger(d), tail.amount - stored);
            View(r.nodes, ids) == View(d.nodes, ids)[i := Segment(tail.fileId, stored)]
                                                    [|ids| - 1 := Segment(tail.fileId, tail.amount - stored)]
  {
    var last := |ids| - 1;
    var tail := d.nodes[ids[last]];
    var stored := Stored(d.nodes[ids[i]].amount, tail.amount);
    var d1 := FillFinger(d);
    var v1 := View(d.nodes, ids)[i := Segment(tail.fileId, stored)];
    var r := ShrinkTail(d1, tail.amount - stored);
    assert Valid(r, ids) && r.finger == d.finger
        && View(r.nodes, ids) == v1[|ids| - 1 := Segment(tail.fileId, tail.amount - stored)] by {
      assert Valid(d1, ids) && d1.finger == d.finger && d1.tail == Some(ids[last])
          && d1.nodes[ids[last]] == tail && View(d1.nodes, ids) == v1 by {
        FillFingerView(d, ids, i);
      }
      ShrinkTailKeeps(d1, ids, tail.amount - stored, v1);
    }
  }

  /** Shrinking a file tail to a positive amount changes the last segment
      of the view and nothing else. */
  lemma ShrinkTailKeeps(d: Disk, ids: seq<nat>, left: nat, v: seq<Segment>)
    requires Valid(d, ids) && |ids| > 0 && left > 0 && View(d.nodes, ids) == v
    ensures var r := ShrinkTail(d, left);
            Valid(r, ids) && r.finger == d.finger
            && View(r.nodes, ids) == v[|ids| - 1 := Segment(d.nodes[ids[|ids| - 1]].fileId, left)]
  {
    SetAmountChangesOne(d, ids, |ids| - 1, left);
  }

  /** The list after a whole move: the finger's segment holds the tail's
      blocks and the tail is popped. */
  lemma FillAllShape(d: Disk, ids: seq<nat>, i: nat)
    requires Valid(d, ids) && i < |ids| - 1 && d.finger == Some(ids[i])
    requires d.nodes[ids[|ids| - 1]].fileId.Some?
    requires Stored(d.nodes[ids[i]].amount, d.nodes[ids[|ids| - 1]].amount) == d.nodes[ids[|ids| - 1]].amount
    ensures var r := ShrinkTail(FillFinger(d), 0);
            Valid(r, ids[..|ids| - 1]) && r.finger == d.finger
            && View(r.nodes, ids[..|ids| - 1]) == View(d.nodes, ids)[i := View(d.nodes, ids)[|ids| - 1]][..|ids| - 1]
  {
    var last := |ids| - 1;
    var d1 := FillFinger(d);
    FillFingerView(d, ids, i);
    PopDropsLast(d1, ids);
    assert View(d.nodes, ids)[last] == SegmentOf(d.nodes[ids[last]]);
  }

  lemma UpdateTwo<T>(v: seq<T>, i: nat, x: T, y: T)
    requires i < |v| - 1
    ensures v[i := x][|v| - 1 := y] == v[..i] + [x] + v[i + 1..|v| - 1] + [y]
  {
  }

  lemma UpdateDropLast<T>(v: seq<T>, i: nat)
    requires i < |v| - 1
    ensures v[i := v[|v| - 1]][..|v| - 1] == v[..i] + [v[|v| - 1]] + v[i + 1..|v| - 1]
  {
  }

  /** A move is `Filled`, then the free space left inserted after the
      finger. */
  lemma MovedFromFilled(v: seq<Segment>, i: nat)
    requires i < |v| - 1
    ensures var stored := Stored(v[i].amount, v[|v| - 1].amount);
            var w := Filled(v, i);
            Moved(v, i) == if v[i].amount - stored > 0 then w[..i + 1] + [Segment(None, v[i].amount - stored)] + w[i + 1..]
                           else w
  {
    var tail := v[|v| - 1];
    var stored := Stored(v[i].amount, tail.amount);
    var a, b, m := v[..i], [Segment(tail.fileId, stored)], v[i + 1..|v| - 1];
    if v[i].amount - stored > 0 {
      assert tail.amount - stored == 0;
      var w := Filled(v, i);
      assert w == a + b + m;
      assert w[..i + 1] == a + b;
      assert w[i + 1..] == m;
    }
  }

  /** A partial move (lines 37-56 of `solve`) keeps the loop's shape and
      every file's blocks, and leaves a file under the finger. */
  lemma FillSomeKeeps(d: Disk, ids: seq<nat>, i: nat)
    requires Positioned(d, ids, i) && i < |ids| - 1
    requires d.nodes[ids[i]].fileId.None? && d.nodes[ids[|ids| - 1]].fileId.Some?
    requires Stored(d.nodes[ids[i]].amount, d.nodes[ids[|ids| - 1]].amount) < d.nodes[ids[|ids| - 1]].amount
    ensures var tail := d.nodes[ids[|ids| - 1]];
            var r := ShrinkTail(FillFinger(d), tail.amount - Stored(d.nodes[ids[i]].amount, tail.amount));
            Positioned(r, ids, i) && View(r.nodes, ids)[i].fileId.Some?
            && Blocks(View(r.nodes, ids)) == Blocks(View(d.nodes, ids))
  {
    var last := |ids| - 1;
    var tail := d.nodes[ids[last]];
    var stored := Stored(d.nodes[ids[i]].amount, tail.amount);
    var r := ShrinkTail(FillFinger(d), tail.amount - stored);
    var v := View(d.nodes, ids);
    FillSomeShape(d, ids, i);
    assert v[i] == SegmentOf(d.nodes[ids[i]]) && v[|v| - 1] == SegmentOf(tail);
    MoveSomeViews(v, View(r.nodes, ids), i, tail.fileId, stored, tail.amount - stored);
  }

  /** A partial move, on the segments: `Filled`. */
  lemma FillSomeFilled(d: Disk, ids: seq<nat>, i: nat)
    requires Valid(d, ids) && i < |ids| - 1 && d.finger == Some(ids[i])
    requires d.nodes[ids[|ids| - 1]].fileId.Some?
    requires Stored(d.nodes[ids[i]].amount, d.nodes[ids[|ids| - 1]].amount) < d.nodes[ids[|ids| - 1]].amount
    ensures var tail := d.nodes[ids[|ids| - 1]];
            var r := ShrinkTail(FillFinger(d), tail.amount - Stored(d.nodes[ids[i]].amount, tail.amount));
            View(r.nodes, ids) == Filled(View(d.nodes, ids), i)
  {
    var tail := d.nodes[ids[|ids| - 1]];
    var stored := Stored(d.nodes[ids[i]].amount, tail.amount);
    var v := View(d.nodes, ids);
    FillSomeShape(d, ids, i);
    assert v[i] == SegmentOf(d.nodes[ids[i]]) && v[|v| - 1] == SegmentOf(tail);
    UpdateTwo(v, i, Segment(tail.fileId, stored), Segment(tail.fileId, tail.amount - stored));
  }

  /** A whole move (lines 37-58 of `solve`) keeps the loop's shape, less
      the popped tail, and every file's blocks, and leaves a file under the
      finger. */
  lemma FillAllKeeps(d: Disk, ids: seq<nat>, i: nat)
    requires Positioned(d, ids, i) && i < |ids| - 1
    requires d.nodes[ids[i]].fileId.None? && d.nodes[ids[|ids| - 1]].fileId.Some?
    requires Stored(d.nodes[ids[i]].amount, d.nodes[ids[|ids| - 1]].amount) == d.nodes[ids[|ids| - 1]].amount
    ensures var r := ShrinkTail(FillFinger(d), 0);
            Positioned(r, ids[..|ids| - 1], i) && View(r.nodes, ids[..|ids| - 1])[i].fileId.Some?
            && Blocks(View(r.nodes, ids[..|ids| - 1])) == Blocks(View(d.nodes, ids))
  {
    var last := |ids| - 1;
    var r := ShrinkTail(FillFinger(d), 0);
    var v := View(d.nodes, ids);
    FillAllShape(d, ids, i);
    assert v[i] == SegmentOf(d.nodes[ids[i]]) && v[|v| - 1] == SegmentOf(d.nodes[ids[last]]);
    MoveAllViews(v, View(r.nodes, ids[..last]), i);
  }

  /** A whole move, on the segments: `Filled`. */
  lemma FillAllFilled(d: Disk, ids: seq<nat>, i: nat)
    requires Valid(d, ids) && i < |ids| - 1 && d.finger == Some(ids[i])
    requires d.nodes[ids[|ids| - 1]].fileId.Some?
    requires Stored(d.nodes[ids[i]].amount, d.nodes[ids[|ids| - 1]].amount) == d.nodes[ids[|ids| - 1]].amount
    ensures View(ShrinkTail(FillFinger(d), 0).nodes, ids[..|ids| - 1]) == Filled(View(d.nodes, ids), i)
  {
    var v := View(d.nodes, ids);
    FillAllShape(d, ids, i);
    assert v[i] == SegmentOf(d.nodes[ids[i]]) && v[|v| - 1] == SegmentOf(d.nodes[ids[|ids| - 1]]);
    UpdateDropLast(v, i);
  }

  /** Either move keeps the loop's shape and every file's blocks; the tail
      is popped exactly when all its blocks moved. */
  lemma FillKeeps(d: Disk, ids: seq<nat>, i: nat) returns (ids': seq<nat>)
    requires Positioned(d, ids, i) && i < |ids| - 1
    requires d.nodes[ids[i]].fileId.None? && d.nodes[ids[|ids| - 1]].fileId.Some?
    ensures var tail := d.nodes[ids[|ids| - 1]];
            var stored := Stored(d.nodes[ids[i]].amount, tail.amount);
            var r := ShrinkTail(FillFinger(d), tail.amount - stored);
            Positioned(r, ids', i) && View(r.nodes, ids')[i].fileId.Some?
            && Blocks(View(r.nodes, ids')) == Blocks(View(d.nodes, ids))
            && View(r.nodes, ids') == Filled(View(d.nodes, ids), i)
            && |ids'| == if stored < tail.amount then |ids| else |ids| - 1
  {
    if Stored(d.nodes[ids[i]].amount, d.nodes[ids[|ids| - 1]].amount) < d.nodes[ids[|ids| - 1]].amount {
      FillSomeKeeps(d, ids, i);
      FillSomeFilled(d, ids, i);
      ids' := ids;
    } else {
      FillAllKeeps(d, ids, i);
      FillAllFilled(d, ids, i);
      ids' := ids[..|ids| - 1];
    }
  }

  /** Popping a free tail (line 33 of `solve`) keeps the loop's shape and
      every file's blocks. */
  lemma PopFreeKeeps(d: Disk, ids: seq<nat>, i: nat)
    requires Positioned(d, ids, i) && i < |ids| - 1 && d.nodes[ids[|ids| - 1]].fileId.None?
    ensures Positioned(Pop(d), ids[..|ids| - 1], i)
    ensures View(Pop(d).nodes, ids[..|ids| - 1]) == View(d.nodes, ids)[..|ids| - 1]
    ensures View(d.nodes, ids)[|ids| - 1].fileId.None?
    ensures Blocks(View(Pop(d).nodes, ids[..|ids| - 1])) == Blocks(View(d.nodes, ids))
  {
    var v := View(d.nodes, ids);
    assert v[|v| - 1] == SegmentOf(d.nodes[ids[|ids| - 1]]);
    DropFreeKeepsBlocks(v);
    PopDropsLast(d, ids);
  }

  /** Inserting the free space left after the finger and stepping onto it
      (lines 61-63 of `solve`) keep the loop's shape and every file's
      blocks. */
  lemma InsertFreeKeeps(d: Disk, ids: seq<nat>, i: nat, left: nat) returns (ids': seq<nat>)
    requires Positioned(d, ids, i) && View(d.nodes, ids)[i].fileId.Some?
    ensures var r := FingerNext(InsertAfterFinger(d, left, None));
            Positioned(r, ids', i + 1) && |ids'| == |ids| + 1 && View(r.nodes, ids')[i + 1].fileId.None?
            && Blocks(View(r.nodes, ids')) == Blocks(View(d.nodes, ids))
            && View(r.nodes, ids') == View(d.nodes, ids)[..i + 1] + [Segment(None, left)] + View(d.nodes, ids)[i + 1..]
  {
    var d2 := InsertAfterFinger(d, left, None);
    var v := View(d.nodes, ids);
    InsertSplices(d, ids, i, left, None);
    ids' := ids[..i + 1] + [|d.nodes|] + ids[i + 1..];
    SpliceFacts(ids, i, |d.nodes|);
    BlocksSplice(v, i, Segment(None, left));
    var v' := View(d2.nodes, ids');
    assert v' == v[..i + 1] + [Segment(None, left)] + v[i + 1..];
    assert forall j :: 0 <= j <= i ==> v'[j] == v[j];
    assert v'[i + 1] == Segment(None, left);
    FingerNextAdvances(d2, ids', i);
  }

  /** One move (lines 37-65 of `solve`): fill the free segment under the
      finger, which is the leftmost free segment, from the tail file, shrink
      or pop the tail, and when free space is left, insert it after the
      finger and step onto it. On the blocks this is `Stored` moves of the
      block-by-block compaction, each of the last file block into the
      leftmost free block. */
  method MoveBlocks(d: Disk, ghost ids: seq<nat>, ghost i: nat)
    returns (d': Disk, ghost ids': seq<nat>, ghost i': nat)
    requires Positioned(d, ids, i) && i < |ids| - 1
    requires d.nodes[ids[i]].fileId.None? && d.nodes[ids[|ids| - 1]].fileId.Some?
    ensures Positioned(d', ids', i')
    ensures Progress(View(d'.nodes, ids'), i') < Progress(View(d.nodes, ids), i)
    ensures Blocks(View(d'.nodes, ids')) == Blocks(View(d.nodes, ids))
    ensures View(d'.nodes, ids') == Moved(View(d.nodes, ids), i)
    ensures CompactBlocks(Expand(View(d.nodes, ids)))
         == CompactBlocks(Expand(View(d'.nodes, ids')))
            + Run(None, Stored(d.nodes[ids[i]].amount, d.nodes[ids[|ids| - 1]].amount))
  {
    var fingerId := d.finger.value;
    assert fingerId == ids[i];
    var free := GetAmount(d, fingerId);
    var leftInFinger := free - Stored(free, GetAmount(d, d.tail.value));
    ghost var v := View(d.nodes, ids);
    assert v[i] == SegmentOf(d.nodes[ids[i]]) && v[|v| - 1] == SegmentOf(d.nodes[ids[|ids| - 1]]);
    d', ids' := FillFromTail(d, ids, i);
    ghost var filled := View(d'.nodes, ids');
    i' := i;
    if leftInFinger > 0 {
      ghost var ids2 := ids';
      ids' := InsertFreeKeeps(d', ids2, i, leftInFinger);
      d' := FingerNext(InsertAfterFinger(d', leftInFinger, None));
      i' := i + 1;
    }
    MoveEffect(v, i, filled, leftInFinger, View(d'.nodes, ids'));
  }

  /** Lines 37-58 of `solve`: the finger's segment takes the tail's file
      and as many of its blocks as fit; the tail keeps the rest, or is
      popped when none are left. */
  method FillFromTail(d: Disk, ghost ids: seq<nat>, ghost i: nat) returns (d': Disk, ghost ids': seq<nat>)
    requires Positioned(d, ids, i) && i < |ids| - 1
    requires d.nodes[ids[i]].fileId.None? && d.nodes[ids[|ids| - 1]].fileId.Some?
    ensures Positioned(d', ids', i) && View(d'.nodes, ids')[i].fileId.Some?
    ensures Blocks(View(d'.nodes, ids')) == Blocks(View(d.nodes, ids))
    ensures View(d'.nodes, ids') == Filled(View(d.nodes, ids), i)
    ensures var v := View(d.nodes, ids);
            |ids'| == if Stored(v[i].amount, v[|v| - 1].amount) < v[|v| - 1].amount then |ids| else |ids| - 1
  {
    var fingerId := d.finger.value;
    var tailId := d.tail.value;
    assert fingerId == ids[i] && tailId == ids[|ids| - 1];
    var items := GetAmount(d, tailId);
    var stored := Stored(GetAmount(d, fingerId), items);
    ghost var v := View(d.nodes, ids);
    assert v[i] == SegmentOf(d.nodes[ids[i]]) && v[|v| - 1] == SegmentOf(d.nodes[ids[|ids| - 1]]);
    d' := ShrinkTail(FillFinger(d), items - stored);
    ids' := FillKeeps(d, ids, i);
  }

  /** What one move does, on the segments and on the blocks. */
  lemma MoveEffect(v: seq<Segment>, i: nat, filled: seq<Segment>, left: nat, w: seq<Segment>)
    requires i < |v| - 1 && FilesBefore(v, i) && v[i].fileId.None? && v[|v| - 1].fileId.Some?
    requires filled == Filled(v, i) && left == v[i].amount - Stored(v[i].amount, v[|v| - 1].amount)
    requires w == if left > 0 then filled[..i + 1] + [Segment(None, left)] + filled[i + 1..] else filled
    ensures w == Moved(v, i)
    ensures CompactBlocks(Expand(v)) == CompactBlocks(Expand(w)) + Run(None, Stored(v[i].amount, v[|v| - 1].amount))
  {
    MovedFromFilled(v, i);
    MovedBlocks(v, i);
  }

  /** Lines 19-66 of `solve`: move file blocks from the tail into the
      free space under the finger until the finger meets the tail. On
      return only files come before the tail, and every file keeps its
      blocks. The source unwraps the finger and the tail, so the list must
      not be empty. The blocks left are those of the block-by-block
      compaction `CompactBlocks`, less the `freed` free blocks it ends with
      that the loop popped. */
  method Compact(d0: Disk, ghost ids0: seq<nat>) returns (d: Disk, ghost ids: seq<nat>, ghost freed: nat)
    requires Valid(d0, ids0) && |ids0| > 0 && d0.finger == d0.head
    ensures Valid(d, ids) && |ids| > 0 && d.finger == d.tail
    ensures FilesBefore(View(d.nodes, ids), |ids| - 1)
    ensures Blocks(View(d.nodes, ids)) == Blocks(View(d0.nodes, ids0))
    ensures CompactBlocks(Expand(View(d0.nodes, ids0))) == Expand(View(d.nodes, ids)) + Run(None, freed)
  {
    d := d0;
    ids := ids0;
    ghost var i: nat := 0;
    freed := 0;
    ghost var b0 := CompactBlocks(Expand(View(d0.nodes, ids0)));
    CompactingStart(b0, View(d0.nodes, ids0));
    while true
      invariant Positioned(d, ids, i)
      invariant Blocks(View(d.nodes, ids)) == Blocks(View(d0.nodes, ids0))
      invariant Compacting(b0, View(d.nodes, ids), freed)
      decreases Progress(View(d.nodes, ids), i)
    {
      var fingerId := d.finger.value;
      var tailId := d.tail.value;
      DistinctFrom(ids, i);
      if fingerId == tailId {
        CompactingEnd(b0, View(d.nodes, ids), freed);
        break;
      }
      if !IsFree(d, fingerId) {
        StepKeeps(d, ids, i);
        d := FingerNext(d);
        i := i + 1;
        continue;
      }
      if IsFree(d, tailId) {
        d, ids, freed := PopFree(d, ids, i, b0, freed);
        continue;
      }
      d, ids, i, freed := MoveCounted(d, ids, i, b0, freed);
    }
  }

  /** `MoveBlocks`, counting the free blocks it leaves at the end of the
      block-by-block compaction. */
  method MoveCounted(d: Disk, ghost ids: seq<nat>, ghost i: nat, ghost b0: seq<Option<nat>>, ghost freed: nat)
    returns (d': Disk, ghost ids': seq<nat>, ghost i': nat, ghost freed': nat)
    requires Positioned(d, ids, i) && i < |ids| - 1
    requires d.nodes[ids[i]].fileId.None? && d.nodes[ids[|ids| - 1]].fileId.Some?
    requires Compacting(b0, View(d.nodes, ids), freed)
    ensures Positioned(d', ids', i') && Compacting(b0, View(d'.nodes, ids'), freed')
    ensures Blocks(View(d'.nodes, ids')) == Blocks(View(d.nodes, ids))
    ensures Progress(View(d'.nodes, ids'), i') < Progress(View(d.nodes, ids), i)
  {
    ghost var v := View(d.nodes, ids);
    ghost var stored := Stored(d.nodes[ids[i]].amount, d.nodes[ids[|ids| - 1]].amount);
    d', ids', i' := MoveBlocks(d, ids, i);
    CompactingMove(b0, v, View(d'.nodes, ids'), stored, freed);
    freed' := stored + freed;
  }

  /** Line 33 of `solve`: pop a free tail. */
  method PopFree(d: Disk, ghost ids: seq<nat>, ghost i: nat, ghost b0: seq<Option<nat>>, ghost freed: nat)
    returns (d': Disk, ghost ids': seq<nat>, ghost freed': nat)
    requires Positioned(d, ids, i) && i < |ids| - 1 && d.nodes[ids[|ids| - 1]].fileId.None?
    requires Compacting(b0, View(d.nodes, ids), freed)
    ensures Positioned(d', ids', i) && Compacting(b0, View(d'.nodes, ids'), freed')
    ensures Blocks(View(d'.nodes, ids')) == Blocks(View(d.nodes, ids))
    ensures Progress(View(d'.nodes, ids'), i) < Progress(View(d.nodes, ids), i)
  {
    ghost var v := View(d.nodes, ids);
    PopFreeKeeps(d, ids, i);
    freed' := CompactingPop(b0, v, freed);
    d' := Pop(d);
    ids' := ids[..|ids| - 1];
  }

  /** The compaction loop's link to `CompactBlocks`: compacting the current
      segments block by block, then adding the `freed` free blocks popped so
      far, gives `b0`. */
  ghost predicate Compacting(b0: seq<Option<nat>>, v: seq<Segment>, freed: nat)
  {
    b0 == CompactBlocks(Expand(v)) + Run(None, freed)
  }

  lemma CompactingStart(b0: seq<Option<nat>>, v: seq<Segment>)
    requires b0 == CompactBlocks(Expand(v))
    ensures Compacting(b0, v, 0)
  {
    assert b0 + Run(None, 0) == b0;
  }

  lemma CompactingPop(b0: seq<Option<nat>>, v: seq<Segment>, freed: nat) returns (freed': nat)
    requires Compacting(b0, v, freed) && |v| > 0 && v[|v| - 1].fileId.None?
    ensures Compacting(b0, v[..|v| - 1], freed') && freed' == v[|v| - 1].amount + freed
  {
    DropFreeBlocks(v);
    freed' := v[|v| - 1].amount + freed;
    FreeRunsJoin(CompactBlocks(Expand(v[..|v| - 1])), v[|v| - 1].amount, freed);
  }

  lemma CompactingMove(b0: seq<Option<nat>>, v: seq<Segment>, w: seq<Segment>, stored: nat, freed: nat)
    requires Compacting(b0, v, freed)
    requires CompactBlocks(Expand(v)) == CompactBlocks(Expand(w)) + Run(None, stored)
    ensures Compacting(b0, w, stored + freed)
  {
    FreeRunsJoin(CompactBlocks(Expand(w)), stored, freed);
  }

  lemma CompactingEnd(b0: seq<Option<nat>>, v: seq<Segment>, freed: nat)
    requires Compacting(b0, v, freed) && |v| > 0 && FilesBefore(v, |v| - 1)
    ensures b0 == Expand(v) + Run(None, freed)
  {
    SettledBlocks(v);
  }

  lemma FreeRunsJoin(y: seq<Option<nat>>, a: nat, b: nat)
    ensures y + Run(None, a) + Run(None, b) == y + Run(None, a + b)
  {
  }

  /** Stepping past a file under the finger (line 28 of `solve`) keeps the
      loop's shape one position on. */
  lemma StepKeeps(d: Disk, ids: seq<nat>, i: nat)
    requires Positioned(d, ids, i) && i < |ids| - 1 && d.nodes[ids[i]].fileId.Some?
    ensures Positioned(FingerNext(d), ids, i + 1)
    ensures FingerNext(d).nodes == d.nodes
    ensures Progress(View(d.nodes, ids), i + 1) < Progress(View(d.nodes, ids), i)
  {
    FingerNextAdvances(d, ids, i);
    assert View(d.nodes, ids)[i] == SegmentOf(d.nodes[ids[i]]);
  }

  // ---------------------------------------------------------------------
  // The checksum of `solve`

  /** `(index..index + amount).map(|i| fileId * i).sum()`. */
  function RangeSum(fileId: nat, index: nat, amount: nat): nat
    decreases amount
  {
    if amount == 0 then 0 else fileId * index + RangeSum(fileId, index + 1, amount - 1)
  }

  /** The sum in closed form, `fileId` times an arithmetic series. */
  lemma {:induction false} RangeSumClosed(fileId: nat, index: nat, amount: nat)
    ensures 2 * RangeSum(fileId, index, amount) == fileId * (amount * (2 * index + amount - 1))
    decreases amount
  {
    if amount > 0 {
      var a := amount - 1;
      RangeSumClosed(fileId, index + 1, a);
      assert 2 * RangeSum(fileId, index + 1, a) == fileId * (a * (2 * index + a + 1));
      SeriesStep(index, a);
      assert 2 * RangeSum(fileId, index, amount)
          == fileId * (2 * index) + fileId * (a * (2 * index + a + 1));
      assert 2 * RangeSum(fileId, index, amount) == fileId * (2 * index + a * (2 * index + a + 1));
    }
  }

  lemma SeriesStep(i: nat, a: nat)
    ensures 2 * i + a * (2 * i + a + 1) == (a + 1) * (2 * i + a)
  {
  }

  /** The checksum contribution of segments laid out from block `index`
      on: a file segment adds `fileId * position` for each of its blocks,
      a free one only moves the position on. */
  function SegChecksum(v: seq<Segment>, index: nat): nat
    decreases |v|
  {
    if |v| == 0 then 0
    else (if v[0].fileId.Some? then RangeSum(v[0].fileId.value, index, v[0].amount) else 0)
         + SegChecksum(v[1..], index + v[0].amount)
  }

  /** `amount` blocks that each hold `x`. */
  function Run(x: Option<nat>, amount: nat): seq<Option<nat>>
  {
    seq(amount, _ => x)
  }

  /** The disk block by block: each block holds a file id or is free. */
  function Expand(v: seq<Segment>): (r: seq<Option<nat>>)
    decreases |v|
  {
    if |v| == 0 then [] else Run(v[0].fileId, v[0].amount) + Expand(v[1..])
  }

  /** The checksum as the puzzle defines it: position times file id, summed
      over the blocks that hold a file. */
  function BlockChecksum(b: seq<Option<nat>>, index: nat): nat
    decreases |b|
  {
    if |b| == 0 then 0
    else (if b[0].Some? then b[0].value * index else 0) + BlockChecksum(b[1..], index + 1)
  }

  lemma {:induction false} BlockChecksumAppend(a: seq<Option<nat>>, b: seq<Option<nat>>, index: nat)
    ensures BlockChecksum(a + b, index) == BlockChecksum(a, index) + BlockChecksum(b, index + |a|)
    decreases |a|
  {
    if |a| > 0 {
      assert (a + b)[1..] == a[1..] + b;
      BlockChecksumAppend(a[1..], b, index + 1);
    } else {
      assert a + b == b;
    }
  }

  /** A run of blocks of one file contributes `RangeSum`. */
  lemma {:induction false} BlockChecksumRun(f: Option<nat>, index: nat, amount: nat)
    ensures BlockChecksum(Run(f, amount), index)
            == if f.Some? then RangeSum(f.value, index, amount) else 0
    decreases amount
  {
    if amount > 0 {
      var run := Run(f, amount);
      assert run[1..] == Run(f, amount - 1);
      BlockChecksumRun(f, index + 1, amount - 1);
    }
  }

  /** Summing segment by segment is summing block by block. */
  lemma {:induction false} SegChecksumIsBlockChecksum(v: seq<Segment>, index: nat)
    ensures SegChecksum(v, index) == BlockChecksum(Expand(v), index)
    decreases |v|
  {
    if |v| > 0 {
      var run := Run(v[0].fileId, v[0].amount);
      BlockChecksumAppend(run, Expand(v[1..]), index);
      BlockChecksumRun(v[0].fileId, index, v[0].amount);
      SegChecksumIsBlockChecksum(v[1..], index + v[0].amount);
    }
  }

  /** Lines 68-93 of `solve`: reset the finger to the head and walk the
      list to the tail, adding each file segment's `RangeSum` and moving the
      position on by every segment's amount. */
  method Checksum(d0: Disk, ghost ids: seq<nat>) returns (sum: nat)
    requires Valid(d0, ids) && |ids| > 0
    ensures sum == SegChecksum(View(d0.nodes, ids), 0)
    ensures sum == BlockChecksum(Expand(View(d0.nodes, ids)), 0)
  {
    ghost var v := View(d0.nodes, ids);
    var d := FingerReset(d0);
    sum := 0;
    var index := 0;
    ghost var i := 0;
    while true
      invariant Valid(d, ids) && d.nodes == d0.nodes && i < |ids| && d.finger == Some(ids[i])
      invariant sum + SegChecksum(v[i..], index) == SegChecksum(v, 0)
      decreases |ids| - i
    {
      var fingerId := d.finger.value;
      var tailId := d.tail.value;
      var isFree := IsFree(d, fingerId);
      var amount := GetAmount(d, fingerId);
      assert v[i] == SegmentOf(d.nodes[ids[i]]);
      assert v[i..][1..] == v[i + 1..];
      if !isFree {
        var fileId := GetFileId(d, fingerId);
        sum := sum + RangeSum(fileId, index, amount);
      }
      index := index + amount;
      DistinctFrom(ids, i);
      if fingerId == tailId {
        assert v[i + 1..] == [];
        break;
      }
      FingerNextAdvances(d, ids, i);
      d := FingerNext(d);
      i := i + 1;
    }
    SegChecksumIsBlockChecksum(v, 0);
  }

  // ---------------------------------------------------------------------
  // `read_input`

  predicate AllDigits(line: string)
  {
    forall k :: 0 <= k < |line| ==> IsDigitChar(line[k])
  }

  /** The disk map as the puzzle reads it: the digits alternate between a
      file and free space, starting with a file, and the `k`-th file gets
      id `k`. */
  function Layout(line: string): (r: seq<Segment>)
    requires AllDigits(line)
    ensures |r| == |line|
  {
    seq(|line|, k requires 0 <= k < |line| => Segment(if k % 2 == 0 then Some(k / 2) else None, DigitValue(line[k])))
  }

  /** Lines 222-248: push one node per character, alternating file and
      free, numbering files from 0. A character that is not a digit makes
      the source panic on `parse().unwrap()`; here it gives `None`. */
  method ReadDisk(line: string) returns (r: Option<Disk>, ghost ids: seq<nat>)
    ensures r.Some? <==> AllDigits(line)
    ensures r.Some? ==> Valid(r.value, ids) && View(r.value.nodes, ids) == Layout(line)
    ensures r.Some? ==> r.value.finger == r.value.head
  {
    var d := Empty;
    ids := [];
    EmptyValid();
    var isFree := false;
    var id: nat := 0;
    var k := 0;
    while k < |line|
      invariant 0 <= k <= |line| && AllDigits(line[..k])
      invariant Valid(d, ids) && |ids| == k && d.finger == d.head
      invariant isFree == (k % 2 == 1) && id == (k + 1) / 2
      invariant View(d.nodes, ids) == Layout(line[..k])
    {
      var c := line[k];
      if !IsDigitChar(c) {
        return None, ids;
      }
      var fileId: Option<nat>;
      if isFree {
        fileId := None;
      } else {
        id := id + 1;
        fileId := Some(id - 1);
      }
      var amount := DigitValue(c);
      PushAppends(d, ids, amount, fileId);
      ids := ids + [|d.nodes|];
      d := Push(d, amount, fileId);
      assert line[..k + 1] == line[..k] + [c];
      assert Layout(line[..k + 1]) == Layout(line[..k]) + [Segment(fileId, amount)];
      isFree := !isFree;
      k := k + 1;
    }
    assert line[..k] == line;
    r := Some(d);
  }

  /** `main`: read the disk map, compact it and compute the checksum. An
      empty map makes the source panic on `finger.unwrap()`, and so does a
      character that is not a digit; both give `None` here. On success the
      compacted segments `v` hold the blocks of the map's files, with only
      files before the last segment, and the result is their checksum,
      which is the checksum of the map's blocks after the block-by-block
      compaction. */
  method Solve(line: string) returns (r: Option<nat>, ghost v: seq<Segment>)
    ensures r.Some? <==> AllDigits(line) && |line| > 0
    ensures r.Some? ==> |v| > 0 && FilesBefore(v, |v| - 1) && Blocks(v) == Blocks(Layout(line))
    ensures r.Some? ==> r.value == BlockChecksum(Expand(v), 0)
    ensures r.Some? ==> r.value == BlockChecksum(CompactBlocks(Expand(Layout(line))), 0)
  {
    var disk, ids := ReadDisk(line);
    if disk.None? || |line| == 0 {
      return None, [];
    }
    var compacted, ids', freed := Compact(disk.value, ids);
    var sum := Checksum(compacted, ids');
    v := View(compacted.nodes, ids');
    ChecksumIgnoresFreeEnd(Expand(v), freed);
    return Some(sum), v;
  }

  /** Free blocks at the end add nothing to the checksum. */
  lemma ChecksumIgnoresFreeEnd(b: seq<Option<nat>>, n: nat)
    ensures BlockChecksum(b + Run(None, n), 0) == BlockChecksum(b, 0)
  {
    BlockChecksumAppend(b, Run(None, n), 0);
    BlockChecksumRun(None, |b|, n);
  }
}
