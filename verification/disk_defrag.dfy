/** Day 9, part two: compaction by whole files. The arena and its list
    are those of part one; the arena of part two also remembers, for
    every file id, the node `push` created for that file. */
module DiskDefrag {
  import opened Wrappers
  import opened Decimal
  import opened DiskCompaction

  /** The doubly linked list of part two: part one's arena and the map
      `file_id_2_node`. */
  datatype Arena = Arena(list: Disk, fileNode: map<nat, nat>)

  // ---------------------------------------------------------------------
  // Whole-file moves on the list of segments

  /** A free segment with room for `size` blocks. */
  predicate Fits(s: Segment, size: nat)
  {
    s.fileId.None? && s.amount >= size
  }

  /** The first position before `t` whose segment fits `size` blocks, or
      `t` itself when none does. */
  function FirstFit(v: seq<Segment>, size: nat, t: nat): (r: nat)
    requires t <= |v|
    ensures r <= t
    ensures r < t ==> Fits(v[r], size)
    ensures forall q :: 0 <= q < r ==> !Fits(v[q], size)
    decreases t
  {
    if t == 0 then 0
    else
      var r := FirstFit(v, size, t - 1);
      if r < t - 1 || Fits(v[t - 1], size) then r else t
  }

  /** The first position before `t` holding file `k`, or `t` itself when
      none does. */
  function FindFile(v: seq<Segment>, k: nat, t: nat): (r: nat)
    requires t <= |v|
    ensures r <= t
    ensures r < t ==> v[r].fileId == Some(k)
    ensures forall q :: 0 <= q < r ==> v[q].fileId != Some(k)
    decreases t
  {
    if t == 0 then 0
    else
      var r := FindFile(v, k, t - 1);
      if r < t - 1 || v[t - 1].fileId == Some(k) then r else t
  }

  /** The free blocks a move into `v[j]` leaves behind. */
  function Leftover(v: seq<Segment>, t: nat, j: nat): nat
    requires j < t < |v| && Fits(v[j], v[t].amount)
  {
    v[j].amount - v[t].amount
  }

  /** The file at `t` moved into the free segment at `j`: the segment at
      `j` takes the file, the blocks it does not need stay free right after
      it, and the file's old place becomes free space of the file's size. */
  function Relocate(v: seq<Segment>, t: nat, j: nat): seq<Segment>
    requires j < t < |v| && Fits(v[j], v[t].amount)
  {
    var left := Leftover(v, t, j);
    v[..j] + [v[t]] + (if left > 0 then [Segment(None, left)] else [])
    + v[j + 1..t] + [Segment(None, v[t].amount)] + v[t + 1..]
  }

  /** The file at `t` moves into the first free segment before it that
      has room for all of it, and stays where it is when there is none. */
  function MoveFile(v: seq<Segment>, t: nat): seq<Segment>
    requires t < |v|
  {
    var j := FirstFit(v, v[t].amount, t);
    if j == t then v else Relocate(v, t, j)
  }

  /** `MoveFile` for the file with id `k`, wherever it is. */
  function MoveById(v: seq<Segment>, k: nat): seq<Segment>
  {
    var t := FindFile(v, k, |v|);
    if t == |v| then v else MoveFile(v, t)
  }

  /** The layout once the files `n - 1` down to `k` have each been tried
      once, in that order. */
  function MovedDownTo(v: seq<Segment>, n: nat, k: nat): seq<Segment>
    decreases n - k
  {
    if k >= n then v else MoveById(MovedDownTo(v, n, k + 1), k)
  }

  lemma FirstFitIs(v: seq<Segment>, size: nat, t: nat, j: nat)
    requires j < t <= |v| && Fits(v[j], size)
    requires forall q :: 0 <= q < j ==> !Fits(v[q], size)
    ensures FirstFit(v, size, t) == j
  {
  }

  lemma FindFileIs(v: seq<Segment>, k: nat, p: nat)
    requires p < |v| && v[p].fileId == Some(k)
    requires forall q :: 0 <= q < p ==> v[q].fileId != Some(k)
    ensures FindFile(v, k, |v|) == p
  {
  }

  /** `Relocate`, position by position. */
  lemma RelocateAt(v: seq<Segment>, t: nat, j: nat)
    requires j < t < |v| && Fits(v[j], v[t].amount)
    ensures var r := Relocate(v, t, j);
      var l := if Leftover(v, t, j) > 0 then 1 else 0;
      && |r| == |v| + l
      && (forall q :: 0 <= q < j ==> r[q] == v[q])
      && r[j] == v[t]
      && (l == 1 ==> r[j + 1] == Segment(None, Leftover(v, t, j)))
      && (forall q :: j < q < t ==> r[q + l] == v[q])
      && r[t + l] == Segment(None, v[t].amount)
      && (forall q :: t < q < |v| ==> r[q + l] == v[q])
  {
  }

  /** Every segment other than the two the move touches stays, shifted by
      the leftover inserted before it. */
  lemma RelocateKeeps(v: seq<Segment>, t: nat, j: nat, q: nat)
    requires j < t < |v| && Fits(v[j], v[t].amount) && q < |v| && q != j && q != t
    ensures var l := if Leftover(v, t, j) > 0 then 1 else 0;
      var q' := if q < j then q else q + l;
      q' < |Relocate(v, t, j)| && Relocate(v, t, j)[q'] == v[q]
  {
    RelocateAt(v, t, j);
  }

  /** A move keeps every file's blocks: the file leaves its old place and
      takes the same number of blocks at the new one. */
  lemma RelocateKeepsBlocks(v: seq<Segment>, t: nat, j: nat)
    requires j < t < |v| && Fits(v[j], v[t].amount)
    ensures Blocks(Relocate(v, t, j)) == Blocks(v)
  {
    var left := Leftover(v, t, j);
    var rest: seq<Segment> := if left > 0 then [Segment(None, left)] else [];
    var freed := Segment(None, v[t].amount);
    var a, b, c := v[..j], v[j + 1..t], v[t + 1..];
    assert Blocks(rest) == multiset{} by {
      if left > 0 { BlocksSingle(Segment(None, left)); }
    }
    assert Blocks([]) == multiset{};
    BlocksSingle(v[t]);
    BlocksSingle(v[j]);
    BlocksSingle(freed);
    assert Relocate(v, t, j) == a + [v[t]] + rest + b + [freed] + c;
    BlocksOfParts(a, [v[t]], rest, b, [freed], c);
    SplitAround(v, j, t);
    BlocksOfParts(a, [v[j]], [], b, [v[t]], c);
  }

  lemma SplitAround(v: seq<Segment>, j: nat, t: nat)
    requires j < t < |v|
    ensures v == v[..j] + [v[j]] + [] + v[j + 1..t] + [v[t]] + v[t + 1..]
  {
    assert v[..j + 1] == v[..j] + [v[j]];
    assert v[..t] == v[..j + 1] + v[j + 1..t];
    assert v == v[..t] + [v[t]] + v[t + 1..];
  }

  lemma BlocksOfParts(a: seq<Segment>, b: seq<Segment>, c: seq<Segment>, d: seq<Segment>, e: seq<Segment>, f: seq<Segment>)
    ensures Blocks(a + b + c + d + e + f) == Blocks(a) + Blocks(b) + Blocks(c) + Blocks(d) + Blocks(e) + Blocks(f)
  {
    BlocksAppend(a + b + c + d + e, f);
    BlocksAppend(a + b + c + d, e);
    BlocksAppend(a + b + c, d);
    BlocksAppend(a + b, c);
    BlocksAppend(a, b);
  }

  /** Trying a file keeps the blocks of every file. */
  lemma MoveByIdKeepsBlocks(v: seq<Segment>, k: nat)
    ensures Blocks(MoveById(v, k)) == Blocks(v)
  {
    var t := FindFile(v, k, |v|);
    if t < |v| {
      var j := FirstFit(v, v[t].amount, t);
      if j < t {
        RelocateKeepsBlocks(v, t, j);
      }
    }
  }

  /** Compaction keeps the blocks of every file. */
  lemma {:induction false} MovedDownToKeepsBlocks(v: seq<Segment>, n: nat, k: nat)
    ensures Blocks(MovedDownTo(v, n, k)) == Blocks(v)
    decreases n - k
  {
    if k < n {
      MovedDownToKeepsBlocks(v, n, k + 1);
      MoveByIdKeepsBlocks(MovedDownTo(v, n, k + 1), k);
    }
  }

  /** A file only ever moves towards the front: afterwards it is found no
      later than before. */
  lemma MoveByIdMovesLeft(v: seq<Segment>, k: nat)
    requires FindFile(v, k, |v|) < |v|
    ensures FindFile(MoveById(v, k), k, |MoveById(v, k)|) <= FindFile(v, k, |v|)
  {
    var t := FindFile(v, k, |v|);
    var j := FirstFit(v, v[t].amount, t);
    if j < t {
      var r := Relocate(v, t, j);
      RelocateAt(v, t, j);
      FindFileIs(r, k, j);
    }
  }

  /** Any other file keeps its order among the segments: where it was at
      `p`, it is now at `p`, or one further on when leftover free space was
      inserted before it. */
  lemma RelocateFindsOthers(v: seq<Segment>, t: nat, j: nat, k: nat)
    requires j < t < |v| && Fits(v[j], v[t].amount) && v[t].fileId != Some(k)
    requires FindFile(v, k, |v|) < |v|
    ensures var p := FindFile(v, k, |v|);
      var l := if Leftover(v, t, j) > 0 then 1 else 0;
      p != j && p != t
      && FindFile(Relocate(v, t, j), k, |Relocate(v, t, j)|) == if p < j then p else p + l
  {
    var p := FindFile(v, k, |v|);
    var l := if Leftover(v, t, j) > 0 then 1 else 0;
    var r := Relocate(v, t, j);
    RelocateAt(v, t, j);
    var p' := if p < j then p else p + l;
    assert v[j].fileId.None? && v[p].fileId == Some(k);
    RelocateKeeps(v, t, j, p);
    forall q | 0 <= q < p'
      ensures r[q].fileId != Some(k)
    {
      if q < j {
        assert r[q] == v[q];
      } else if q > j + l && q != t + l {
        assert r[q] == v[q - l];
      }
    }
    FindFileIs(r, k, p');
  }

  /** `Relocate` done the way `solve` does it: the free segment at `j`
      takes the file's id and size, the leftover is inserted after it, and
      the file's old segment is made free. */
  lemma RelocateSteps(v: seq<Segment>, t: nat, j: nat)
    requires j < t < |v| && Fits(v[j], v[t].amount)
    ensures var w := v[j := v[t]];
      var left := Leftover(v, t, j);
      var w' := if left > 0 then w[..j + 1] + [Segment(None, left)] + w[j + 1..] else w;
      var l := if left > 0 then 1 else 0;
      t + l < |w'| && w'[t + l] == v[t]
      && w'[t + l := Segment(None, v[t].amount)] == Relocate(v, t, j)
  {
    var w := v[j := v[t]];
    var left := Leftover(v, t, j);
    var w' := if left > 0 then w[..j + 1] + [Segment(None, left)] + w[j + 1..] else w;
    var l := if left > 0 then 1 else 0;
    var r := Relocate(v, t, j);
    RelocateAt(v, t, j);
    var s := w'[t + l := Segment(None, v[t].amount)];
    assert |s| == |r|;
    forall q | 0 <= q < |s|
      ensures s[q] == r[q]
    {
      if q < j {
      } else if q == j {
      } else if q <= j + l {
      } else if q < t + l {
        assert s[q] == v[q - l];
      } else if q > t + l {
        assert s[q] == v[q - l];
      }
    }
  }

  // ---------------------------------------------------------------------
  // The arena operations new in part two

  /** `DoublyLinkedList::new`. */
  const Fresh := Arena(Empty, map[])

  /** `push`, which also records `file_id → node` for file nodes. */
  function PushNode(a: Arena, amount: nat, fileId: Option<nat>): Arena
    requires a.list.tail.Some? ==> a.list.tail.value in a.list.nodes
  {
    Arena(Push(a.list, amount, fileId),
          if fileId.Some? then a.fileNode[fileId.value := |a.list.nodes|] else a.fileNode)
  }

  /** `remove`: the node's neighbours are linked to each other, and head
      or tail move past it; the node stays in the arena. The source
      unwraps the head and the tail. */
  function Remove(d: Disk, id: nat): Disk
    requires id in d.nodes && d.head.Some? && d.tail.Some?
    requires d.nodes[id].prev.Some? ==> d.nodes[id].prev.value in d.nodes
    requires d.nodes[id].next.Some? ==> d.nodes[id].next.value in d.nodes
  {
    var node := d.nodes[id];
    var unlinked := if node.prev.Some? then d.nodes[node.prev.value := d.nodes[node.prev.value].(next := node.next)] else d.nodes;
    var relinked := if node.next.Some? then unlinked[node.next.value := unlinked[node.next.value].(prev := node.prev)] else unlinked;
    d.(nodes := relinked,
       head := if id == d.head.value then node.next else d.head,
       tail := if id == d.tail.value then node.prev else d.tail)
  }

  /** `set_free`. */
  function SetFree(d: Disk, id: nat): Disk
    requires id in d.nodes
  {
    d.(nodes := d.nodes[id := d.nodes[id].(fileId := None)])
  }

  /** The id of the node `get_previous(id)` returns: the one stored under
      `id`, that is `id` itself, not its predecessor. */
  function GetPrevious(d: Disk, id: nat): nat
    requires id in d.nodes
  {
    id
  }

  /** `remove` drops one position from the list and keeps the others'
      segments. */
  lemma RemoveUnlinks(d: Disk, ids: seq<nat>, i: nat)
    requires Valid(d, ids) && i < |ids|
    ensures ids[i] in d.nodes && d.head.Some? && d.tail.Some?
    ensures d.nodes[ids[i]].prev.Some? ==> d.nodes[ids[i]].prev.value in d.nodes
    ensures d.nodes[ids[i]].next.Some? ==> d.nodes[ids[i]].next.value in d.nodes
    ensures Valid(Remove(d, ids[i]), ids[..i] + ids[i + 1..])
    ensures View(Remove(d, ids[i]).nodes, ids[..i] + ids[i + 1..]) == View(d.nodes, ids)[..i] + View(d.nodes, ids)[i + 1..]
  {
    assert d.nodes[ids[i]].prev == PrevId(ids, i) && d.nodes[ids[i]].next == NextId(ids, i);
    var r := Remove(d, ids[i]);
    var ids' := ids[..i] + ids[i + 1..];
    DistinctFrom(ids, i);
    RemoveNodes(d, ids, i);
    assert forall k :: k in d.nodes ==> k in r.nodes && SegmentOf(r.nodes[k]) == SegmentOf(d.nodes[k]);
    ViewRemove(d.nodes, r.nodes, ids, i);
    DistinctRemove(ids, i);
    RemoveLinks(d, ids, i);
    assert |r.nodes| == |r.nodes.Keys| == |d.nodes.Keys| == |d.nodes|;
    RemoveEnds(d, ids, i);
  }

  /** `remove` moves the head or the tail past the removed node. */
  lemma RemoveEnds(d: Disk, ids: seq<nat>, i: nat)
    requires Valid(d, ids) && i < |ids|
    ensures var ids' := ids[..i] + ids[i + 1..];
      && Remove(d, ids[i]).head == (if |ids'| > 0 then Some(ids'[0]) else None)
      && Remove(d, ids[i]).tail == (if |ids'| > 0 then Some(ids'[|ids'| - 1]) else None)
  {
    assert d.nodes[ids[i]].prev == PrevId(ids, i) && d.nodes[ids[i]].next == NextId(ids, i);
    if i > 0 { DistinctFrom(ids, 0); }
    if i < |ids| - 1 { DistinctFrom(ids, |ids| - 1); }
  }

  /** Dropping a position keeps the ids distinct. */
  lemma DistinctRemove(ids: seq<nat>, i: nat)
    requires Distinct(ids) && i < |ids|
    ensures Distinct(ids[..i] + ids[i + 1..])
  {
    var ids' := ids[..i] + ids[i + 1..];
    forall a, b | 0 <= a < b < |ids'|
      ensures IdAt(ids', a) != IdAt(ids', b)
    {
      var a' := if a < i then a else a + 1;
      var b' := if b < i then b else b + 1;
      assert IdAt(ids, a') != IdAt(ids, b');
    }
  }

  /** Dropping a position from the list drops its segment from the view,
      when no listed node's segment changes. */
  lemma ViewRemove(nodes: map<nat, Node>, nodes': map<nat, Node>, ids: seq<nat>, i: nat)
    requires InNodes(nodes, ids) && i < |ids|
    requires forall k :: k in nodes ==> k in nodes' && SegmentOf(nodes'[k]) == SegmentOf(nodes[k])
    ensures InNodes(nodes', ids[..i] + ids[i + 1..])
    ensures View(nodes', ids[..i] + ids[i + 1..]) == View(nodes, ids)[..i] + View(nodes, ids)[i + 1..]
  {
    var ids' := ids[..i] + ids[i + 1..];
    var v := View(nodes, ids);
    assert InNodes(nodes', ids') by {
      forall q | 0 <= q < |ids'|
        ensures ids'[q] in nodes'
      {
        var q' := if q < i then q else q + 1;
        assert ids'[q] == ids[q'];
      }
    }
    var w := View(nodes', ids');
    forall q | 0 <= q < |ids'|
      ensures w[q] == (v[..i] + v[i + 1..])[q]
    {
      var q' := if q < i then q else q + 1;
      assert ids'[q] == ids[q'];
    }
  }

  /** What `remove` does to the arena, node by node. */
  lemma RemoveNodes(d: Disk, ids: seq<nat>, i: nat)
    requires Valid(d, ids) && i < |ids|
    ensures var r := Remove(d, ids[i]);
      var node := d.nodes[ids[i]];
      && r.nodes.Keys == d.nodes.Keys
      && (i > 0 ==> r.nodes[ids[i - 1]] == d.nodes[ids[i - 1]].(next := node.next))
      && (i + 1 < |ids| ==> r.nodes[ids[i + 1]] == d.nodes[ids[i + 1]].(prev := node.prev))
      && (forall k {:trigger r.nodes[k]} :: k in d.nodes && Some(k) != node.prev && Some(k) != node.next ==> r.nodes[k] == d.nodes[k])
  {
    assert d.nodes[ids[i]].prev == PrevId(ids, i) && d.nodes[ids[i]].next == NextId(ids, i);
    if i > 0 && i + 1 < |ids| {
      DistinctFrom(ids, i + 1);
    }
  }

  /** The links after `remove`, position by position. */
  lemma RemoveLinks(d: Disk, ids: seq<nat>, i: nat)
    requires Valid(d, ids) && i < |ids|
    requires InNodes(Remove(d, ids[i]).nodes, ids[..i] + ids[i + 1..])
    ensures NextLinks(Remove(d, ids[i]).nodes, ids[..i] + ids[i + 1..])
    ensures PrevLinks(Remove(d, ids[i]).nodes, ids[..i] + ids[i + 1..])
  {
    var r := Remove(d, ids[i]);
    var ids' := ids[..i] + ids[i + 1..];
    var node := d.nodes[ids[i]];
    assert node.prev == PrevId(ids, i) && node.next == NextId(ids, i);
    RemoveNodes(d, ids, i);
    forall p {:trigger r.nodes[ids'[p]]} | 0 <= p < |ids'|
      ensures r.nodes[ids'[p]].next == NextId(ids', p)
      ensures r.nodes[ids'[p]].prev == PrevId(ids', p)
    {
      var p' := if p < i then p else p + 1;
      assert ids'[p] == ids[p'];
      DistinctFrom(ids, p');
      assert d.nodes[ids[p']].next == NextId(ids, p') && d.nodes[ids[p']].prev == PrevId(ids, p');
      if p + 1 < |ids'| { assert ids'[p + 1] == ids[if p + 1 < i then p + 1 else p + 2]; }
      if p > 0 { assert ids'[p - 1] == ids[if p - 1 < i then p - 1 else p]; }
    }
  }

  /** `set_free` frees one segment and keeps its amount and every link. */
  lemma SetFreeChangesOne(d: Disk, ids: seq<nat>, i: nat)
    requires Valid(d, ids) && i < |ids|
    ensures Valid(SetFree(d, ids[i]), ids)
    ensures View(SetFree(d, ids[i]).nodes, ids) == View(d.nodes, ids)[i := Segment(None, d.nodes[ids[i]].amount)]
  {
    var r := SetFree(d, ids[i]);
    assert r.nodes.Keys == d.nodes.Keys;
    DistinctFrom(ids, i);
    assert forall j :: 0 <= j < |ids| ==> ids[j] in r.nodes;
    SameLinksValid(d, r, ids);
    assert forall j {:trigger r.nodes[ids[j]]} :: 0 <= j < |ids| && j != i ==> r.nodes[ids[j]] == d.nodes[ids[j]];
    var v := View(r.nodes, ids);
    assert v == View(d.nodes, ids)[i := Segment(None, d.nodes[ids[i]].amount)];
  }

  // ---------------------------------------------------------------------
  // The whole-file loop of `solve`

  /** File `k` is still in the node `file_id_2_node` names for it, and
      that node is the first listed one holding `k`. */
  ghost predicate Placed(a: Arena, ids: seq<nat>, k: nat)
  {
    && InNodes(a.list.nodes, ids)
    && k in a.fileNode
    && FindFile(View(a.list.nodes, ids), k, |ids|) < |ids|
    && ids[FindFile(View(a.list.nodes, ids), k, |ids|)] == a.fileNode[k]
  }

  /** Lines 49-66 of `solve`: the free segment under the finger, at `j`,
      takes the id and size of the file at `t`; its leftover is inserted
      after it; and the file's own node is freed. `get_previous` hands back
      that node itself, which still holds the file, so the branch that
      would merge it into free space before it never runs. */
  method MoveInto(d: Disk, ghost ids: seq<nat>, ghost j: nat, ghost t: nat, fingerId: nat, targetId: nat)
    returns (r: Disk, ghost ids': seq<nat>)
    requires Valid(d, ids) && j < t < |ids| && d.finger == Some(ids[j])
    requires fingerId == ids[j] && targetId == ids[t]
    requires d.nodes[targetId].fileId.Some?
    requires Fits(SegmentOf(d.nodes[fingerId]), d.nodes[targetId].amount)
    ensures Valid(r, ids') && View(r.nodes, ids') == Relocate(View(d.nodes, ids), t, j)
    ensures var l := if Leftover(View(d.nodes, ids), t, j) > 0 then 1 else 0;
      |ids'| == |ids| + l
      && (forall q :: 0 <= q <= j ==> ids'[q] == ids[q])
      && (forall q :: j < q < |ids| ==> ids'[q + l] == ids[q])
  {
    ghost var v := View(d.nodes, ids);
    assert v[j] == SegmentOf(d.nodes[fingerId]) && v[t] == SegmentOf(d.nodes[targetId]);
    DistinctFrom(ids, t);
    var fileIdOfTarget := GetFileId(d, targetId);
    var amountFree := GetAmount(d, fingerId);
    var amountOfItems := GetAmount(d, targetId);
    var left := amountFree - amountOfItems;
    SetFileIdChangesOne(d, ids, j, fileIdOfTarget);
    r := SetFileId(d, fingerId, fileIdOfTarget);
    SetAmountChangesOne(r, ids, j, amountOfItems);
    r := SetAmount(r, fingerId, amountOfItems);
    ghost var w := View(r.nodes, ids);
    assert w == v[j := v[t]];
    ids' := ids;
    ghost var t' := t;
    if left > 0 {
      InsertSplices(r, ids, j, left, None);
      SpliceFacts(ids, j, |r.nodes|);
      ids' := ids[..j + 1] + [|r.nodes|] + ids[j + 1..];
      r := InsertAfterFinger(r, left, None);
      t' := t + 1;
    }
    RelocateSteps(v, t, j);
    assert ids'[t'] == targetId;
    assert View(r.nodes, ids')[t'] == v[t];
    var previous := GetPrevious(r, targetId);
    if IsFree(r, previous) {
      assert false;
    } else {
      SetFreeChangesOne(r, ids', t');
      r := SetFree(r, targetId);
    }
  }

  /** After a move, every other file is still in the node recorded for
      it. */
  lemma RelocatedStayPlaced(a: Arena, ids: seq<nat>, r: Arena, ids': seq<nat>, t: nat, j: nat)
    requires InNodes(a.list.nodes, ids) && j < t < |ids|
    requires var v := View(a.list.nodes, ids); Fits(v[j], v[t].amount) && v[t].fileId.Some?
    requires InNodes(r.list.nodes, ids') && r.fileNode == a.fileNode
    requires View(r.list.nodes, ids') == Relocate(View(a.list.nodes, ids), t, j)
    requires var l := if Leftover(View(a.list.nodes, ids), t, j) > 0 then 1 else 0;
      |ids'| == |ids| + l
      && (forall q :: 0 <= q <= j ==> ids'[q] == ids[q])
      && (forall q :: j < q < |ids| ==> ids'[q + l] == ids[q])
    ensures forall k :: k != View(a.list.nodes, ids)[t].fileId.value && Placed(a, ids, k) ==> Placed(r, ids', k)
  {
    var v := View(a.list.nodes, ids);
    forall k | k != v[t].fileId.value && Placed(a, ids, k)
      ensures Placed(r, ids', k)
    {
      RelocateFindsOthers(v, t, j, k);
    }
  }

  /** Lines 25-67 of `solve` for one file id `key`: the finger walks from
      the head towards the file's node, skipping file segments and free
      segments too small for it; the first free segment with room takes
      the file. Reaching the file's own node leaves everything as it is. */
  method MoveWholeFile(a: Arena, ghost ids: seq<nat>, key: nat) returns (r: Arena, ghost ids': seq<nat>)
    requires Valid(a.list, ids) && Placed(a, ids, key)
    ensures Valid(r.list, ids') && r.fileNode == a.fileNode && |ids'| >= |ids|
    ensures View(r.list.nodes, ids') == MoveById(View(a.list.nodes, ids), key)
    ensures forall k :: k != key && Placed(a, ids, k) ==> Placed(r, ids', k)
  {
    ghost var v := View(a.list.nodes, ids);
    ghost var t := FindFile(v, key, |ids|);
    ghost var size := v[t].amount;
    DistinctFrom(ids, t);
    var d := FingerReset(a.list);
    ghost var i := 0;
    while true
      invariant i <= t && d == a.list.(finger := Some(ids[i])) && Valid(d, ids)
      invariant forall q :: 0 <= q < i ==> !Fits(v[q], size)
      decreases t - i
    {
      var fingerId := d.finger.value;
      var targetId := a.fileNode[key];
      if fingerId == targetId {
        break;
      }
      assert v[i] == SegmentOf(d.nodes[ids[i]]);
      if !IsFree(d, fingerId) {
        FingerNextAdvances(d, ids, i);
        d := FingerNext(d);
        i := i + 1;
        continue;
      }
      var amountFreeInFinger := GetAmount(d, fingerId);
      var amountOfItemsInTarget := GetAmount(d, targetId);
      if amountOfItemsInTarget > amountFreeInFinger {
        FingerNextAdvances(d, ids, i);
        d := FingerNext(d);
        i := i + 1;
        continue;
      }
      FirstFitIs(v, size, t, i);
      var moved;
      moved, ids' := MoveInto(d, ids, i, t, fingerId, targetId);
      r := Arena(moved, a.fileNode);
      RelocatedStayPlaced(a, ids, r, ids', t, i);
      return;
    }
    r := Arena(d, a.fileNode);
    ids' := ids;
  }

  /** Lines 19-67 of `solve`: every file id, from the highest down to 0,
      is tried exactly once. `read_input` numbers the files `0 .. n`, so
      sorting the keys of `file_id_2_node` in descending order is counting
      down from `n`. */
  method Defragment(a0: Arena, ghost ids0: seq<nat>, ghost n: nat) returns (a: Arena, ghost ids: seq<nat>)
    requires Valid(a0.list, ids0)
    requires forall k: nat :: k in a0.fileNode <==> k < n
    requires forall k :: 0 <= k < n ==> Placed(a0, ids0, k)
    ensures Valid(a.list, ids) && a.fileNode == a0.fileNode && |ids| >= |ids0|
    ensures View(a.list.nodes, ids) == MovedDownTo(View(a0.list.nodes, ids0), n, 0)
  {
    CountBelow(a0.fileNode.Keys, n);
    var key: nat := |a0.fileNode|;
    a, ids := a0, ids0;
    while key > 0
      invariant key <= n && Valid(a.list, ids) && a.fileNode == a0.fileNode && |ids| >= |ids0|
      invariant View(a.list.nodes, ids) == MovedDownTo(View(a0.list.nodes, ids0), n, key)
      invariant forall k :: 0 <= k < key ==> Placed(a, ids, k)
    {
      key := key - 1;
      a, ids := MoveWholeFile(a, ids, key);
    }
  }

  lemma {:induction false} CountBelow(s: set<nat>, n: nat)
    requires forall k: nat :: k in s <==> k < n
    ensures |s| == n
    decreases n
  {
    if n > 0 {
      CountBelow(s - {n - 1}, n - 1);
    }
  }

  // ---------------------------------------------------------------------
  // `read_input` and `main`

  /** The number of files in a disk map. */
  function Files(line: string): nat
  {
    (|line| + 1) / 2
  }

  /** `file_id_2_node` after `count` files: file `f` is the node pushed
      `2 f`-th. */
  ghost predicate Recorded(m: map<nat, nat>, ids: seq<nat>, count: nat)
  {
    && (forall f: nat :: f in m <==> f < count)
    && (forall f: nat :: f < count ==> 2 * f < |ids| && m[f] == ids[2 * f])
  }

  /** `push` records the node of a file, and only of a file. */
  lemma PushRecords(a: Arena, ids: seq<nat>, amount: nat, fileId: Option<nat>, count: nat)
    requires Valid(a.list, ids) && Recorded(a.fileNode, ids, count)
    requires fileId.Some? ==> fileId.value == count && |ids| == 2 * count
    ensures Recorded(PushNode(a, amount, fileId).fileNode, ids + [|a.list.nodes|], if fileId.Some? then count + 1 else count)
  {
  }

  /** In the disk map as read, file `f` is the segment at position `2 f`. */
  lemma LayoutFindsFile(line: string, f: nat)
    requires AllDigits(line) && f < Files(line)
    ensures FindFile(Layout(line), f, |line|) == 2 * f
  {
    var v := Layout(line);
    forall q | 0 <= q < 2 * f
      ensures v[q].fileId != Some(f)
    {
      assert q / 2 < f;
    }
    FindFileIs(v, f, 2 * f);
  }

  /** One character of `read_input`: the node it pushes extends the
      layout by one segment, and a file's node is recorded. Positions
      alternate: file `id` is pushed at position `2 id`, free space after
      it at `2 id + 1`. */
  lemma PushDigit(a: Arena, ids: seq<nat>, line: string, k: nat, id: nat, fileId: Option<nat>, id': nat)
    requires k < |line| && AllDigits(line[..k]) && IsDigitChar(line[k])
    requires Valid(a.list, ids) && |ids| == k
    requires View(a.list.nodes, ids) == Layout(line[..k]) && Recorded(a.fileNode, ids, id)
    requires (fileId.None? && k + 1 == 2 * id && id' == id) || (fileId == Some(id) && k == 2 * id && id' == id + 1)
    ensures AllDigits(line[..k + 1])
    ensures Valid(PushNode(a, DigitValue(line[k]), fileId).list, ids + [|a.list.nodes|])
    ensures View(PushNode(a, DigitValue(line[k]), fileId).list.nodes, ids + [|a.list.nodes|]) == Layout(line[..k + 1])
    ensures Recorded(PushNode(a, DigitValue(line[k]), fileId).fileNode, ids + [|a.list.nodes|], id')
  {
    var amount := DigitValue(line[k]);
    PushAppends(a.list, ids, amount, fileId);
    PushRecords(a, ids, amount, fileId, id);
    assert line[..k + 1] == line[..k] + [line[k]];
    assert Layout(line[..k + 1]) == Layout(line[..k]) + [Segment(fileId, amount)];
  }

  /** Every file of the map as read sits in the node recorded for it. */
  lemma RecordedPlaced(a: Arena, ids: seq<nat>, line: string)
    requires Valid(a.list, ids) && AllDigits(line) && View(a.list.nodes, ids) == Layout(line)
    requires Recorded(a.fileNode, ids, (|line| + 1) / 2)
    ensures forall f: nat :: f in a.fileNode <==> f < Files(line)
    ensures forall f :: 0 <= f < Files(line) ==> Placed(a, ids, f)
  {
    forall f | 0 <= f < Files(line)
      ensures Placed(a, ids, f)
    {
      LayoutFindsFile(line, f);
    }
  }

  /** Lines 248-275: `read_input` pushes one node per character,
      alternating file and free and numbering the files from 0, and
      `push` records every file's node in `file_id_2_node`. A character
      that is not a digit makes the source panic; here it gives `None`. */
  method ReadArena(line: string) returns (r: Option<Arena>, ghost ids: seq<nat>)
    ensures r.Some? <==> AllDigits(line)
    ensures r.Some? ==> Valid(r.value.list, ids) && View(r.value.list.nodes, ids) == Layout(line)
    ensures r.Some? ==> forall f: nat :: f in r.value.fileNode <==> f < Files(line)
    ensures r.Some? ==> forall f :: 0 <= f < Files(line) ==> Placed(r.value, ids, f)
  {
    var a := Fresh;
    assert a.fileNode == map[];
    ids := [];
    EmptyValid();
    var isFree := false;
    var id: nat := 0;
    var k := 0;
    while k < |line|
      invariant 0 <= k <= |line| && AllDigits(line[..k])
      invariant Valid(a.list, ids) && |ids| == k
      invariant (isFree && k + 1 == 2 * id) || (!isFree && k == 2 * id)
      invariant View(a.list.nodes, ids) == Layout(line[..k])
      invariant Recorded(a.fileNode, ids, id)
    {
      var c := line[k];
      if !IsDigitChar(c) {
        return None, ids;
      }
      ghost var before := id;
      var nodeId: Option<nat>;
      if isFree {
        nodeId := None;
      } else {
        id := id + 1;
        nodeId := Some(id - 1);
      }
      var amount := DigitValue(c);
      PushDigit(a, ids, line, k, before, nodeId, id);
      ids := ids + [|a.list.nodes|];
      a := PushNode(a, amount, nodeId);
      isFree := !isFree;
      k := k + 1;
    }
    assert line[..k] == line && id == (|line| + 1) / 2;
    RecordedPlaced(a, ids, line);
    r := Some(a);
  }

  /** `main` of part two: read the disk map, move whole files and compute
      the checksum. An empty map, or a character that is not a digit,
      makes the source panic; both give `None` here. On success `v` is the
      map's layout after every file, from the highest id down, has been
      tried once; it holds the same blocks of every file as the map, and
      the result is its checksum. */
  method SolveWholeFiles(line: string) returns (r: Option<nat>, ghost v: seq<Segment>)
    ensures r.Some? <==> AllDigits(line) && |line| > 0
    ensures r.Some? ==> v == MovedDownTo(Layout(line), Files(line), 0)
    ensures r.Some? ==> Blocks(v) == Blocks(Layout(line))
    ensures r.Some? ==> r.value == BlockChecksum(Expand(v), 0)
  {
    var arena, ids := ReadArena(line);
    if arena.None? || |line| == 0 {
      return None, [];
    }
    var moved, ids' := Defragment(arena.value, ids, Files(line));
    var sum := Checksum(moved.list, ids');
    v := View(moved.list.nodes, ids');
    MovedDownToKeepsBlocks(Layout(line), Files(line), 0);
    return Some(sum), v;
  }
}
