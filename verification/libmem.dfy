/**
 * The libmem statistics and helpers over a fixed buffer allocator, passed explicitly.
 * Each traversal is a loop along node_next, checked against a fold over the node
 * sequence; the folds are defined on the last node so that a loop extending its prefix
 * extends the fold by one step.
 */
module LibMem {
  import opened Wrappers
  import opened Allocator
  import opened Layout
  import opened FixedBuffer

  // ---------------------------------------------------------------------------
  // Folds

  /** Payload bytes held by holes. */
  function HoleBytes(nodes: seq<Node>): nat
  {
    if |nodes| == 0 then 0
    else
      var x := nodes[|nodes| - 1];
      HoleBytes(nodes[..|nodes| - 1]) + (if x.isHole then x.size else 0)
  }

  /** Header bytes of every node plus payload bytes of used nodes. */
  function UsedBytes(nodes: seq<Node>): nat
  {
    if |nodes| == 0 then 0
    else
      var x := nodes[|nodes| - 1];
      UsedBytes(nodes[..|nodes| - 1]) + H + (if x.isHole then 0 else x.size)
  }

  /** Number of holes. */
  function HoleCount(nodes: seq<Node>): nat
  {
    if |nodes| == 0 then 0
    else HoleCount(nodes[..|nodes| - 1]) + (if nodes[|nodes| - 1].isHole then 1 else 0)
  }

  /** Number of holes of at most `threshold` bytes. */
  function SmallHoles(nodes: seq<Node>, threshold: nat): nat
  {
    if |nodes| == 0 then 0
    else
      var x := nodes[|nodes| - 1];
      SmallHoles(nodes[..|nodes| - 1], threshold) + (if x.isHole && x.size <= threshold then 1 else 0)
  }

  /** The index of the earliest largest hole, if any hole exists. */
  function LargestHole(nodes: seq<Node>): (r: Option<nat>)
    ensures r.Some? ==> r.value < |nodes| && nodes[r.value].isHole
  {
    if |nodes| == 0 then None
    else
      var best := LargestHole(nodes[..|nodes| - 1]);
      var x := nodes[|nodes| - 1];
      if x.isHole && (best.None? || x.size > nodes[best.value].size) then Some(|nodes| - 1) else best
  }

  // ---------------------------------------------------------------------------
  // Properties of the folds

  /** Free and used bytes partition the run: together they are its whole extent. */
  lemma {:induction false} BytesPartition(nodes: seq<Node>)
    ensures HoleBytes(nodes) + UsedBytes(nodes) == Sum(nodes)
    decreases |nodes|
  {
    if |nodes| > 0 {
      var init := nodes[..|nodes| - 1];
      BytesPartition(init);
      assert nodes == init + [nodes[|nodes| - 1]];
      SumConcat(init, [nodes[|nodes| - 1]]);
      SumOne(nodes[|nodes| - 1]);
    }
  }

  /** Counting small holes never exceeds counting holes, and a larger threshold never
      counts fewer. */
  lemma {:induction false} SmallHolesBounds(nodes: seq<Node>, t1: nat, t2: nat)
    requires t1 <= t2
    ensures SmallHoles(nodes, t1) <= SmallHoles(nodes, t2) <= HoleCount(nodes)
    decreases |nodes|
  {
    if |nodes| > 0 {
      SmallHolesBounds(nodes[..|nodes| - 1], t1, t2);
    }
  }

  /** With a threshold at least every hole's size, every hole is small. */
  lemma {:induction false} SmallHolesAll(nodes: seq<Node>, threshold: nat)
    requires forall k :: 0 <= k < |nodes| && nodes[k].isHole ==> nodes[k].size <= threshold
    ensures SmallHoles(nodes, threshold) == HoleCount(nodes)
    decreases |nodes|
  {
    if |nodes| > 0 {
      var init := nodes[..|nodes| - 1];
      assert forall k :: 0 <= k < |init| && init[k].isHole ==> init[k].size <= threshold by {
        forall k | 0 <= k < |init| && init[k].isHole ensures init[k].size <= threshold {
          assert init[k] == nodes[k];
        }
      }
      SmallHolesAll(init, threshold);
    }
  }

  /** The largest hole: none exactly when there is no hole; otherwise a hole at least as
      large as every hole and strictly larger than every earlier one. */
  lemma {:induction false} LargestHoleIsLargest(nodes: seq<Node>)
    ensures LargestHole(nodes).None? <==> forall k :: 0 <= k < |nodes| ==> !nodes[k].isHole
    ensures LargestHole(nodes).Some? ==>
              var m := LargestHole(nodes).value;
              && (forall k :: 0 <= k < |nodes| && nodes[k].isHole ==> nodes[k].size <= nodes[m].size)
              && (forall k :: 0 <= k < m && nodes[k].isHole ==> nodes[k].size < nodes[m].size)
    decreases |nodes|
  {
    if |nodes| > 0 {
      var init := nodes[..|nodes| - 1];
      LargestHoleIsLargest(init);
      assert forall k :: 0 <= k < |init| ==> init[k] == nodes[k];
    }
  }

  // ---------------------------------------------------------------------------
  // The traversals

  /** nbloclibre: the payload bytes of every hole. */
  method FreeBytes(a: FixedBufferAllocator) returns (usable: nat)
    requires Tiled(a)
    ensures usable == HoleBytes(a.nodes)
    ensures usable + UsedBytes(a.nodes) == a.size
  {
    usable := 0;
    var node: Option<nat> := Some(0);
    while node.Some?
      invariant node.Some? ==> node.value < |a.nodes|
      invariant usable == HoleBytes(a.nodes[..if node.Some? then node.value else |a.nodes|])
      decreases if node.Some? then |a.nodes| - node.value else 0
    {
      var i := node.value;
      assert a.nodes[..i + 1][..i] == a.nodes[..i];
      if a.nodes[i].isHole {
        usable := usable + a.nodes[i].size;
      }
      node := NodeNext(a, i);
    }
    assert a.nodes[..|a.nodes|] == a.nodes;
    BytesPartition(a.nodes);
  }

  /** nblocalloue: one header per node plus the payload bytes of every used node. */
  method AllocatedBytes(a: FixedBufferAllocator) returns (used: nat)
    requires Tiled(a)
    ensures used == UsedBytes(a.nodes)
    ensures HoleBytes(a.nodes) + used == a.size
  {
    used := 0;
    var node: Option<nat> := Some(0);
    while node.Some?
      invariant node.Some? ==> node.value < |a.nodes|
      invariant used == UsedBytes(a.nodes[..if node.Some? then node.value else |a.nodes|])
      decreases if node.Some? then |a.nodes| - node.value else 0
    {
      var i := node.value;
      assert a.nodes[..i + 1][..i] == a.nodes[..i];
      if !a.nodes[i].isHole {
        used := used + a.nodes[i].size;
      }
      used := used + H;
      node := NodeNext(a, i);
    }
    assert a.nodes[..|a.nodes|] == a.nodes;
    BytesPartition(a.nodes);
  }

  /** mem_pgrand_libre: the size of the earliest largest hole, or 0 with no hole. */
  method LargestFree(a: FixedBufferAllocator) returns (r: nat)
    requires Tiled(a)
    ensures LargestHole(a.nodes).None? ==> r == 0
    ensures LargestHole(a.nodes).Some? ==> r == a.nodes[LargestHole(a.nodes).value].size
    ensures forall k :: 0 <= k < |a.nodes| && a.nodes[k].isHole ==> a.nodes[k].size <= r
  {
    var largest: Option<nat> := None;
    var node: Option<nat> := Some(0);
    while node.Some?
      invariant node.Some? ==> node.value < |a.nodes|
      invariant largest == LargestHole(a.nodes[..if node.Some? then node.value else |a.nodes|])
      invariant largest.Some? ==> largest.value < |a.nodes|
      decreases if node.Some? then |a.nodes| - node.value else 0
    {
      var i := node.value;
      assert a.nodes[..i + 1][..i] == a.nodes[..i];
      if a.nodes[i].isHole && (largest.None? || a.nodes[i].size > a.nodes[largest.value].size) {
        largest := Some(i);
      }
      node := NodeNext(a, i);
    }
    assert a.nodes[..|a.nodes|] == a.nodes;
    LargestHoleIsLargest(a.nodes);
    r := if largest.None? then 0 else a.nodes[largest.value].size;
  }

  /** mem_small_free: the number of holes of at most `threshold` bytes. */
  method SmallFree(a: FixedBufferAllocator, threshold: nat) returns (n: nat)
    requires Tiled(a)
    ensures n == SmallHoles(a.nodes, threshold)
    ensures n <= HoleCount(a.nodes)
  {
    n := 0;
    var node: Option<nat> := Some(0);
    while node.Some?
      invariant node.Some? ==> node.value < |a.nodes|
      invariant n == SmallHoles(a.nodes[..if node.Some? then node.value else |a.nodes|], threshold)
      decreases if node.Some? then |a.nodes| - node.value else 0
    {
      var i := node.value;
      assert a.nodes[..i + 1][..i] == a.nodes[..i];
      if a.nodes[i].isHole && a.nodes[i].size <= threshold {
        n := n + 1;
      }
      node := NodeNext(a, i);
    }
    assert a.nodes[..|a.nodes|] == a.nodes;
    SmallHolesBounds(a.nodes, threshold, threshold);
  }

  // ---------------------------------------------------------------------------
  // Lookup and release helpers

  /** mem_est_alloue: p is the payload address of some node, hole or not. Every live
      allocation qualifies. */
  function IsAllocated(a: FixedBufferAllocator, p: nat): (r: bool)
    requires Tiled(a)
    ensures r <==> exists i :: 0 <= i < |a.nodes| && Payload(a, i) == p
    ensures p in Allocations(a) ==> r
  {
    FindAllocation(a, p);
    Find(a, p).Some?
  }

  /** getNodeAtIndex: the block-th node counting from the first, if there are that many. */
  function NodeAtIndex(a: FixedBufferAllocator, block: nat): (r: Option<nat>)
    requires Tiled(a)
    ensures r.Some? <==> block < |a.nodes|
    ensures r.Some? ==> r.value == block
  {
    NodeAtIndexFrom(a, 0, block)
  }

  /** liberebloc: deallocate the block-th node's payload when that node exists and is in
      use; otherwise nothing happens. */
  function FreeByIndex(a: FixedBufferAllocator, block: nat): (r: FixedBufferAllocator)
    requires Valid(a)
    ensures Valid(r)
    ensures block >= |a.nodes| || a.nodes[block].isHole ==> r == a
    ensures block < |a.nodes| && !a.nodes[block].isHole ==>
              Allocations(r) == Allocations(a) - {Payload(a, block)} && Payload(a, block) in Allocations(a)
  {
    match NodeAtIndex(a, block)
    case None => a
    case Some(i) =>
      if a.nodes[i].isHole then a
      else
        AllocationsAt(a.nodes, a.buffer, i);
        FindAllocation(a, Payload(a, i));
        Resize(a, Some(Payload(a, i)), 0).state
  }

  /** liberebloc on a used node is node_release of that node. */
  lemma FreeByIndexReleases(a: FixedBufferAllocator, block: nat)
    requires Valid(a) && block < |a.nodes| && !a.nodes[block].isHole
    ensures FreeByIndex(a, block) == Release(a, block)
  {
    AllocationsAt(a.nodes, a.buffer, block);
    StateDetermined(FreeByIndex(a, block), Release(a, block));
  }

  /** The allocations at or after address `from`. */
  function From(m: map<nat, nat>, from: nat): map<nat, nat>
  {
    map q | q in m && q >= from :: m[q]
  }

  /** clearmem: deallocate the payload of every used node in address order. The model
      walks the headers present when it started, while the source reads each size after
      the release. A backward merge leaves the released header's stale size in place, so
      the source's next step lands on the original successor. A forward merge grows the
      size over the following hole, so the source steps over that hole's header, which
      the model visits and skips as a hole. Both walks deallocate the same payloads in
      the same order. Afterwards nothing is allocated and the buffer is one hole again. */
  method ClearAll(a: FixedBufferAllocator) returns (r: FixedBufferAllocator)
    requires Valid(a)
    ensures Valid(r) && r.cap == a.cap && r.buffer == a.buffer && r.size == a.size
    ensures Allocations(r) == map[]
    ensures r.nodes == [Node(true, a.size - H, None)]
  {
    r := a;
    var node: Option<nat> := Some(0);
    assert Allocations(a) == From(Allocations(a), Payload(a, 0)) by {
      AllocationsBounds(a.nodes, a.buffer);
    }
    while node.Some?
      invariant node.Some? ==> node.value < |a.nodes|
      invariant Valid(r) && r.cap == a.cap && r.buffer == a.buffer && r.size == a.size
      invariant Allocations(r) == From(Allocations(a), Payload(a, if node.Some? then node.value else |a.nodes|))
      decreases if node.Some? then |a.nodes| - node.value else 0
    {
      r := ClearNode(a, r, node.value);
      node := NodeNext(a, node.value);
    }
    var empty := Init(None, a.buffer, a.size).(cap := a.cap);
    assert Allocations(r) == map[] by {
      AllocationsBounds(a.nodes, a.buffer);
      assert a.nodes[..|a.nodes|] == a.nodes;
    }
    StateDetermined(r, empty);
  }

  /** One iteration of clearmem on the original header i, in the current state r: a used
      node's payload is deallocated, a hole is skipped. */
  function ClearNode(a: FixedBufferAllocator, r: FixedBufferAllocator, i: nat): (r': FixedBufferAllocator)
    requires Valid(a) && i < |a.nodes|
    requires Valid(r) && r.cap == a.cap && r.buffer == a.buffer && r.size == a.size
    requires Allocations(r) == From(Allocations(a), Payload(a, i))
    ensures Valid(r') && r'.cap == a.cap && r'.buffer == a.buffer && r'.size == a.size
    ensures Allocations(r') == From(Allocations(a), Payload(a, i + 1))
  {
    var p := Payload(a, i);
    if a.nodes[i].isHole then
      ClearStep(a, i, Allocations(r), Allocations(r));
      r
    else
      AllocationsAt(a.nodes, a.buffer, i);
      FindAllocation(r, p);
      var r' := Resize(r, Some(p), 0).state;
      ClearStep(a, i, Allocations(r), Allocations(r'));
      r'
  }

  /** One step of clearmem: dropping node i's allocation, if any, moves the boundary of
      what is left to node i + 1's payload. */
  lemma ClearStep(a: FixedBufferAllocator, i: nat, before: map<nat, nat>, after: map<nat, nat>)
    requires Valid(a) && i < |a.nodes|
    requires before == From(Allocations(a), Payload(a, i))
    requires after == if a.nodes[i].isHole then before else before - {Payload(a, i)}
    ensures after == From(Allocations(a), Payload(a, i + 1))
  {
    var m := Allocations(a);
    OffsetStep(a.nodes, i);
    forall q | q in m && Payload(a, i) < q < Payload(a, i + 1)
      ensures false
    {
      var j := AllocationsWitness(a.nodes, a.buffer, q);
      if j < i {
        OffsetMonotone(a.nodes, j, i);
      } else if j > i {
        OffsetMonotone(a.nodes, i + 1, j);
      }
    }
    if a.nodes[i].isHole {
      assert Payload(a, i) !in m by {
        FindAllocation(a, Payload(a, i));
        PayloadInjectiveFind(a, i);
      }
    }
  }

  /** node_find at node i's payload returns node i. */
  lemma PayloadInjectiveFind(a: FixedBufferAllocator, i: nat)
    requires Tiled(a) && i < |a.nodes|
    ensures Find(a, Payload(a, i)) == Some(i)
  {
    PayloadInjective(a, i, Find(a, Payload(a, i)).value);
  }
}
