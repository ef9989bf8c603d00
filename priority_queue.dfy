/** The indexed binary min-heap `PriorityQueue` of public/index.js.
    The heap is a sequence of entries ordered so that no slot is below its
    parent slot `(k - 1) / 2`; beside it, `indices` maps every node in the
    heap to its slot, so that a node's priority can be lowered in place.

    Entries carry the node's parent in the spanning tree besides its
    priority. The queue in public/index.js stores only `{node, priority}`;
    the Prim of public/algorithms.js passes a parent to `enqueue` and reads
    it back from the dequeued entry, so the model stores it and replaces it
    together with the priority on a strict decrease. */
module PriorityQueues {
  import opened Common

  datatype Entry = Entry(node: NodeId, priority: Dist, parent: Option<NodeId>)

  /** Slot `k` is not below its parent slot. */
  ghost predicate InOrder(h: seq<Entry>, k: nat)
    requires 0 < k < |h|
  {
    Le(h[(k - 1) / 2].priority, h[k].priority)
  }

  /** Slot `p` is at most slot `c`. */
  ghost predicate AtMost(h: seq<Entry>, p: nat, c: nat)
    requires p < |h| && c < |h|
  {
    Le(h[p].priority, h[c].priority)
  }

  /** The parent slot of `i` is at most slot `k`. */
  ghost predicate GrandOrder(h: seq<Entry>, i: nat, k: nat)
    requires 0 < i < |h| && k < |h|
  {
    Le(h[(i - 1) / 2].priority, h[k].priority)
  }

  /** Every slot is at least its parent slot. */
  ghost predicate HeapOrdered(h: seq<Entry>)
  {
    forall k :: 0 < k < |h| ==> InOrder(h, k)
  }

  /** Slot `i` holds a node that `ix` maps back to `i`. */
  ghost predicate SlotIndexed(h: seq<Entry>, ix: map<NodeId, nat>, i: nat)
    requires i < |h|
  {
    h[i].node in ix && ix[h[i].node] == i
  }

  /** `ix` maps node `n` to a slot that holds `n`. */
  ghost predicate KeyIndexed(h: seq<Entry>, ix: map<NodeId, nat>, n: NodeId)
    requires n in ix
  {
    ix[n] < |h| && h[ix[n]].node == n
  }

  /** `ix` holds exactly the nodes in `h`, each with its own slot. */
  ghost predicate IndexedBy(h: seq<Entry>, ix: map<NodeId, nat>)
  {
    (forall i :: 0 <= i < |h| ==> SlotIndexed(h, ix, i)) &&
    (forall n :: n in ix ==> KeyIndexed(h, ix, n))
  }

  /** The queue as the map from each queued node to its entry. */
  ghost function ContentsOf(h: seq<Entry>, ix: map<NodeId, nat>): map<NodeId, Entry>
    requires IndexedBy(h, ix)
  {
    map n | n in ix :: h[ix[n]]
  }

  /** Heap order holds except between slot `i` and its parent, and the
      parent of `i` is also at most the children of `i`: the state before
      and during `bubbleUp(i)`. */
  ghost predicate UpReady(h: seq<Entry>, i: nat)
  {
    i < |h| &&
    (forall k :: 0 < k < |h| && k != i ==> InOrder(h, k)) &&
    (0 < i ==> forall k :: 0 < k < |h| && (k - 1) / 2 == i ==> GrandOrder(h, i, k))
  }

  /** Heap order holds except between slot `i` and its children, and the
      parent of `i` is also at most the children of `i`: the state before
      and during `bubbleDown(i)`. */
  ghost predicate DownReady(h: seq<Entry>, i: nat)
  {
    i < |h| &&
    (forall k :: 0 < k < |h| && (k - 1) / 2 != i ==> InOrder(h, k)) &&
    (0 < i ==> forall k :: 0 < k < |h| && (k - 1) / 2 == i ==> GrandOrder(h, i, k))
  }

  function Swapped(h: seq<Entry>, i: nat, j: nat): seq<Entry>
    requires i < |h| && j < |h|
  {
    h[i := h[j]][j := h[i]]
  }

  /** The heap after `dequeue` has popped the last entry and, if any entry
      is left, moved it to the root. */
  function Popped(h: seq<Entry>): seq<Entry>
    requires 0 < |h|
  {
    if |h| == 1 then [] else [h[|h| - 1]] + h[1..|h| - 1]
  }

  /** The index map after `dequeue`, before `bubbleDown(0)`. */
  function PoppedIndices(h: seq<Entry>, ix: map<NodeId, nat>): map<NodeId, nat>
    requires 0 < |h|
  {
    if |h| == 1 then ix - {h[0].node} else (ix - {h[0].node})[h[|h| - 1].node := 0]
  }

  /** `Le` over priorities is transitive. */
  lemma LeTrans(a: Dist, b: Dist, c: Dist)
    requires Le(a, b) && Le(b, c)
    ensures Le(a, c)
  {
  }

  /** The root of an ordered heap is at most every entry. */
  lemma {:induction false} RootIsMin(h: seq<Entry>, k: nat)
    requires HeapOrdered(h) && k < |h|
    ensures Le(h[0].priority, h[k].priority)
    decreases k
  {
    if k > 0 {
      var p := (k - 1) / 2;
      RootIsMin(h, p);
      assert InOrder(h, k);
      LeTrans(h[0].priority, h[p].priority, h[k].priority);
    }
  }

  /** Swapping two slots keeps the index map consistent and every node's
      entry the same. */
  lemma SwapIndexed(h: seq<Entry>, ix: map<NodeId, nat>, i: nat, j: nat)
    requires IndexedBy(h, ix) && i < |h| && j < |h|
    ensures IndexedBy(Swapped(h, i, j), ix[h[j].node := i][h[i].node := j])
    ensures ContentsOf(Swapped(h, i, j), ix[h[j].node := i][h[i].node := j]) == ContentsOf(h, ix)
  {
    var h', ix' := Swapped(h, i, j), ix[h[j].node := i][h[i].node := j];
    assert SlotIndexed(h, ix, i) && SlotIndexed(h, ix, j);
    assert ix'.Keys == ix.Keys;
    forall k | 0 <= k < |h'|
      ensures SlotIndexed(h', ix', k)
    {
      assert SlotIndexed(h, ix, k);
    }
    forall n | n in ix'
      ensures KeyIndexed(h', ix', n) && h'[ix'[n]] == h[ix[n]]
    {
      assert KeyIndexed(h, ix, n);
    }
  }

  /** Bubbling up: a smaller slot `i` changes places with its parent. */
  lemma UpStep(h: seq<Entry>, i: nat)
    requires UpReady(h, i) && 0 < i
    requires Less(h[i].priority, h[(i - 1) / 2].priority)
    ensures UpReady(Swapped(h, i, (i - 1) / 2), (i - 1) / 2)
  {
    var p := (i - 1) / 2;
    var h' := Swapped(h, i, p);
    forall k | 0 < k < |h'| && k != p
      ensures InOrder(h', k)
    {
      if k == i {
      } else if (k - 1) / 2 == i {
        assert GrandOrder(h, i, k);
      } else if (k - 1) / 2 == p {
        assert InOrder(h, k);
        LeTrans(h[i].priority, h[p].priority, h[k].priority);
      } else {
        assert InOrder(h, k);
      }
    }
    if 0 < p {
      var g := (p - 1) / 2;
      assert InOrder(h, p);
      forall k | 0 < k < |h'| && (k - 1) / 2 == p
        ensures GrandOrder(h', p, k)
      {
        if k != i {
          assert InOrder(h, k);
          LeTrans(h[g].priority, h[p].priority, h[k].priority);
        }
      }
    }
  }

  /** Bubbling up stops at a slot not below its parent. */
  lemma UpDone(h: seq<Entry>, i: nat)
    requires UpReady(h, i)
    requires 0 < i ==> InOrder(h, i)
    ensures HeapOrdered(h)
  {
  }

  /** Bubbling down: slot `i` changes places with its smaller child `s`. */
  lemma DownStep(h: seq<Entry>, i: nat, s: nat)
    requires DownReady(h, i) && s < |h| && (s == 2 * i + 1 || s == 2 * i + 2)
    requires Less(h[s].priority, h[i].priority)
    requires forall c :: 0 < c < |h| && (c - 1) / 2 == i ==> AtMost(h, s, c)
    ensures DownReady(Swapped(h, i, s), s)
  {
    var h' := Swapped(h, i, s);
    assert (s - 1) / 2 == i;
    forall k | 0 < k < |h'| && (k - 1) / 2 != s
      ensures InOrder(h', k)
    {
      if k == s {
      } else if k == i {
        assert GrandOrder(h, i, s);
      } else if (k - 1) / 2 == i {
        assert AtMost(h, s, k);
      } else {
        assert InOrder(h, k);
      }
    }
    forall k | 0 < k < |h'| && (k - 1) / 2 == s
      ensures GrandOrder(h', s, k)
    {
      assert InOrder(h, k);
    }
  }

  /** Bubbling down stops at a slot not above either child. */
  lemma DownDone(h: seq<Entry>, i: nat)
    requires DownReady(h, i)
    requires forall c :: 0 < c < |h| && (c - 1) / 2 == i ==> AtMost(h, i, c)
    ensures HeapOrdered(h)
  {
    forall k | 0 < k < |h|
      ensures InOrder(h, k)
    {
      if (k - 1) / 2 == i {
        assert AtMost(h, i, k);
      }
    }
  }

  /** Lowering the priority of slot `i` leaves only that slot to bubble up,
      and keeps the index map when the node stays the same. */
  lemma LowerIndexed(h: seq<Entry>, ix: map<NodeId, nat>, i: nat, e: Entry)
    requires IndexedBy(h, ix) && HeapOrdered(h) && i < |h|
    requires e.node == h[i].node && Le(e.priority, h[i].priority)
    ensures IndexedBy(h[i := e], ix)
    ensures ContentsOf(h[i := e], ix) == ContentsOf(h, ix)[e.node := e]
    ensures UpReady(h[i := e], i)
  {
    var h' := h[i := e];
    assert SlotIndexed(h, ix, i);
    forall k | 0 <= k < |h'|
      ensures SlotIndexed(h', ix, k)
    {
      assert SlotIndexed(h, ix, k);
    }
    forall n | n in ix
      ensures KeyIndexed(h', ix, n) && h'[ix[n]] == if n == e.node then e else h[ix[n]]
    {
      assert KeyIndexed(h, ix, n);
    }
    forall k | 0 < k < |h'| && k != i
      ensures InOrder(h', k)
    {
      assert InOrder(h, k);
      if (k - 1) / 2 == i {
        LeTrans(e.priority, h[i].priority, h[k].priority);
      }
    }
    if 0 < i {
      assert InOrder(h, i);
      forall k | 0 < k < |h'| && (k - 1) / 2 == i
        ensures GrandOrder(h', i, k)
      {
        assert InOrder(h, k);
        LeTrans(h[(i - 1) / 2].priority, h[i].priority, h[k].priority);
      }
    }
  }

  /** Appending an entry for a new node leaves only the last slot to bubble
      up, and extends the index map by that node. */
  lemma PushIndexed(h: seq<Entry>, ix: map<NodeId, nat>, e: Entry)
    requires IndexedBy(h, ix) && HeapOrdered(h) && e.node !in ix
    ensures IndexedBy(h + [e], ix[e.node := |h|])
    ensures ContentsOf(h + [e], ix[e.node := |h|]) == ContentsOf(h, ix)[e.node := e]
    ensures UpReady(h + [e], |h|)
  {
    var h', ix' := h + [e], ix[e.node := |h|];
    forall k | 0 <= k < |h'|
      ensures SlotIndexed(h', ix', k)
    {
      if k < |h| {
        assert SlotIndexed(h, ix, k);
      }
    }
    forall n | n in ix'
      ensures KeyIndexed(h', ix', n) && h'[ix'[n]] == if n == e.node then e else h[ix[n]]
    {
      if n != e.node {
        assert KeyIndexed(h, ix, n);
      }
    }
    forall k | 0 < k < |h'| && k != |h|
      ensures InOrder(h', k)
    {
      assert InOrder(h, k);
    }
  }

  /** Popping the root leaves a consistent index map without the root's
      node. */
  lemma PopIndexed(h: seq<Entry>, ix: map<NodeId, nat>)
    requires IndexedBy(h, ix) && 0 < |h|
    ensures IndexedBy(Popped(h), PoppedIndices(h, ix))
    ensures ContentsOf(Popped(h), PoppedIndices(h, ix)) == ContentsOf(h, ix) - {h[0].node}
  {
    var h', ix' := Popped(h), PoppedIndices(h, ix);
    var last := |h| - 1;
    assert SlotIndexed(h, ix, 0) && SlotIndexed(h, ix, last);
    forall k | 0 <= k < |h'|
      ensures SlotIndexed(h', ix', k)
    {
      if k > 0 {
        assert h'[k] == h[k] && SlotIndexed(h, ix, k);
      }
    }
    forall n | n in ix'
      ensures KeyIndexed(h', ix', n) && h'[ix'[n]] == h[ix[n]]
    {
      assert KeyIndexed(h, ix, n);
    }
  }

  /** After popping the root of an ordered heap, only the new root is out
      of place. */
  lemma PopReady(h: seq<Entry>)
    requires HeapOrdered(h) && 1 < |h|
    ensures DownReady(Popped(h), 0)
  {
    var h' := Popped(h);
    forall k | 0 < k < |h'| && (k - 1) / 2 != 0
      ensures InOrder(h', k)
    {
      assert h'[k] == h[k] && h'[(k - 1) / 2] == h[(k - 1) / 2];
      assert InOrder(h, k);
    }
  }

  class PriorityQueue {
    var heap: seq<Entry>
    var indices: map<NodeId, nat>

    /** The two-part invariant: a consistent index map and heap order. */
    ghost predicate Valid()
      reads this
    {
      IndexedBy(heap, indices) && HeapOrdered(heap)
    }

    /** The queued nodes with their entries. */
    ghost function Contents(): map<NodeId, Entry>
      reads this
      requires Valid()
    {
      ContentsOf(heap, indices)
    }

    constructor ()
      ensures Valid() && Contents() == map[] && heap == []
    {
      heap := [];
      indices := map[];
    }

    /** Whether no node is queued. */
    function IsEmpty(): (b: bool)
      reads this
      requires Valid()
      ensures b <==> Contents() == map[]
    {
      if |heap| == 0 then
        assert Contents().Keys == {};
        true
      else
        assert SlotIndexed(heap, indices, 0);
        assert heap[0].node in Contents();
        false
    }

    /** Exchanges two slots and records their new slots in the index map. */
    method Swap(i: nat, j: nat)
      requires IndexedBy(heap, indices) && i < |heap| && j < |heap|
      modifies this
      ensures heap == Swapped(old(heap), i, j)
      ensures indices == old(indices)[old(heap)[j].node := i][old(heap)[i].node := j]
      ensures IndexedBy(heap, indices)
      ensures ContentsOf(heap, indices) == old(ContentsOf(heap, indices))
    {
      SwapIndexed(heap, indices, i, j);
      var temp := heap[i];
      heap := heap[i := heap[j]];
      heap := heap[j := temp];
      indices := indices[heap[i].node := i];
      indices := indices[heap[j].node := j];
    }

    /** Moves slot `i` up until it is not below its parent. */
    method BubbleUp(i: nat)
      requires IndexedBy(heap, indices) && UpReady(heap, i)
      modifies this
      ensures Valid()
      ensures ContentsOf(heap, indices) == old(ContentsOf(heap, indices))
      ensures |heap| == old(|heap|)
    {
      var k: nat := i;
      while k > 0
        invariant IndexedBy(heap, indices) && UpReady(heap, k)
        invariant ContentsOf(heap, indices) == old(ContentsOf(heap, indices))
        invariant |heap| == old(|heap|)
        decreases k
      {
        var parent := (k - 1) / 2;
        if Less(heap[k].priority, heap[parent].priority) {
          UpStep(heap, k);
          Swap(k, parent);
          k := parent;
        } else {
          assert InOrder(heap, k);
          UpDone(heap, k);
          break;
        }
      }
      if k == 0 {
        UpDone(heap, k);
      }
    }

    /** Moves slot `i` down until it is not above either child. */
    method BubbleDown(i: nat)
      requires IndexedBy(heap, indices) && DownReady(heap, i)
      modifies this
      ensures Valid()
      ensures ContentsOf(heap, indices) == old(ContentsOf(heap, indices))
      ensures |heap| == old(|heap|)
    {
      var n := |heap|;
      var k: nat := i;
      while true
        invariant IndexedBy(heap, indices) && DownReady(heap, k) && |heap| == n
        invariant ContentsOf(heap, indices) == old(ContentsOf(heap, indices))
        decreases n - k
      {
        var left := 2 * k + 1;
        var right := 2 * k + 2;
        var smallest := k;
        if left < n && Less(heap[left].priority, heap[smallest].priority) {
          smallest := left;
        }
        if right < n && Less(heap[right].priority, heap[smallest].priority) {
          smallest := right;
        }
        if smallest != k {
          DownStep(heap, k, smallest);
          Swap(k, smallest);
          k := smallest;
        } else {
          DownDone(heap, k);
          break;
        }
      }
    }

    /** Queues `node` with `priority` and `parent`. A node already queued
        keeps its entry unless the new priority is strictly lower, in which
        case its entry is replaced; priorities are never raised. */
    method Enqueue(node: NodeId, priority: Dist, parent: Option<NodeId>)
      requires Valid()
      modifies this
      ensures Valid()
      ensures node in old(Contents()) && !Less(priority, old(Contents())[node].priority) ==>
        heap == old(heap) && indices == old(indices)
      ensures node in old(Contents()) && Less(priority, old(Contents())[node].priority) ==>
        Contents() == old(Contents())[node := Entry(node, priority, parent)] && |heap| == old(|heap|)
      ensures node !in old(Contents()) ==>
        Contents() == old(Contents())[node := Entry(node, priority, parent)] && |heap| == old(|heap|) + 1
    {
      if node in indices {
        var i := indices[node];
        if Less(priority, heap[i].priority) {
          var e := Entry(node, priority, parent);
          LowerIndexed(heap, indices, i, e);
          heap := heap[i := e];
          BubbleUp(i);
        }
      } else {
        var e := Entry(node, priority, parent);
        PushIndexed(heap, indices, e);
        heap := heap + [e];
        var i := |heap| - 1;
        indices := indices[node := i];
        BubbleUp(i);
      }
    }

    /** Removes and returns an entry of least priority, or `None` when the
        queue is empty. */
    method Dequeue() returns (r: Option<Entry>)
      requires Valid()
      modifies this
      ensures Valid()
      ensures r.None? <==> old(Contents()) == map[]
      ensures r.None? ==> heap == old(heap) && indices == old(indices)
      ensures r.Some? ==> r.value.node in old(Contents()) && old(Contents())[r.value.node] == r.value
      ensures r.Some? ==> forall n :: n in old(Contents()) ==> Le(r.value.priority, old(Contents())[n].priority)
      ensures r.Some? ==> Contents() == old(Contents()) - {r.value.node} && |heap| == old(|heap|) - 1
    {
      if |heap| == 0 {
        assert Contents().Keys == {};
        return None;
      }
      assert SlotIndexed(heap, indices, 0);
      forall n | n in Contents()
        ensures Le(heap[0].priority, Contents()[n].priority)
      {
        RootIsMin(heap, indices[n]);
      }
      PopIndexed(heap, indices);
      if |heap| > 1 {
        PopReady(heap);
      }
      ghost var h0, ix0 := heap, indices;
      var min := heap[0];
      var last := heap[|heap| - 1];
      heap := heap[..|heap| - 1];
      indices := indices - {min.node};
      if |heap| > 0 {
        heap := heap[0 := last];
        indices := indices[last.node := 0];
        assert heap == Popped(h0) && indices == PoppedIndices(h0, ix0);
        BubbleDown(0);
      } else {
        assert heap == Popped(h0) && indices == PoppedIndices(h0, ix0);
      }
      return Some(min);
    }
  }
}
