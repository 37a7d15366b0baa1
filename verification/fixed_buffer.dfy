/**
 * The fixed buffer allocator: a caller's buffer tiled by boundary-tag nodes, served
 * first-fit through the four-case resize function. The allocator record itself holds
 * only its capability, the buffer address and the buffer size; `nodes` stands for the
 * headers written inside the buffer.
 *
 * This is the corrected behaviour: a hole is split only when it exceeds the request by
 * more than one header, every split and merge re-points the successor's back-link, a
 * shrinking resize returns the payload address, and a growing resize releases the old
 * node once the copy is done. The code as written is modelled in FixedBufferDefects.
 */
module FixedBuffer {
  import opened Wrappers
  import opened Allocator
  import opened Layout

  /** The placement strategies with a body: only first fit. */
  datatype Strategy = FirstFit

  /** fixed_buffer_allocator_t {allocator, buffer, size} and the headers in its buffer. */
  datatype FixedBufferAllocator = FixedBufferAllocator(cap: Capability, buffer: nat, size: nat, nodes: seq<Node>)

  /** The nodes tile the buffer from offset 0 with no gap and no overlap. Every node after
      the first has a non-empty payload, so node_next's bound test stops exactly at the
      last node. */
  predicate Tiled(a: FixedBufferAllocator)
  {
    && H <= a.size < SIZE_MAX
    && |a.nodes| >= 1
    && Sum(a.nodes) == a.size
    && SizedAfterFirst(a.nodes)
  }

  /** The layout invariant every operation keeps: tiling, correct back-links, and no two
      neighbouring holes. */
  predicate Valid(a: FixedBufferAllocator)
  {
    Tiled(a) && LinkedFrom(a.nodes, None, 0) && Coalesced(a.nodes)
  }

  /** The address of node i's payload: just past its header. */
  function Payload(a: FixedBufferAllocator, i: nat): nat
    requires i <= |a.nodes|
  {
    a.buffer + Offset(a.nodes, i) + H
  }

  /** Payload address to payload size of every used node. */
  function Allocations(a: FixedBufferAllocator): map<nat, nat>
  {
    AllocationsFrom(a.nodes, a.buffer)
  }

  /** fixed_buffer_allocator_init: one hole spanning the buffer; a null strategy selects
      first fit. The buffer must hold at least one header. */
  function Init(strategy: Option<Strategy>, buffer: nat, size: nat): (a: FixedBufferAllocator)
    requires H <= size < SIZE_MAX
    ensures Valid(a)
    ensures a.buffer == buffer && a.size == size
    ensures a.cap == Capability(false, FirstFitResize)
    ensures a.nodes == [Node(true, size - H, None)]
    ensures Allocations(a) == map[]
  {
    var chosen := if strategy.None? then FirstFit else strategy.value;
    var cap := match chosen case FirstFit => Capability(false, FirstFitResize);
    var a := FixedBufferAllocator(cap, buffer, size, [Node(true, size - H, None)]);
    SumOne(a.nodes[0]);
    LinkedSingle(a.nodes[0], None, 0);
    AllocationsSingle(a.nodes[0], buffer);
    a
  }

  // ---------------------------------------------------------------------------
  // Traversal

  /** node_next: the header at node i's end, or none once that address is within one
      header of the buffer's end. The address arithmetic lands exactly on node i + 1, and
      the traversal never leaves the buffer. */
  function NodeNext(a: FixedBufferAllocator, i: nat): (r: Option<nat>)
    requires Tiled(a) && i < |a.nodes|
    ensures r.Some? <==> i + 1 < |a.nodes|
    ensures r.Some? ==> r.value == i + 1
    ensures r.Some? ==> Offset(a.nodes, r.value) == Offset(a.nodes, i) + H + a.nodes[i].size
    ensures r.Some? ==> Offset(a.nodes, r.value) + H < a.size
  {
    NextHeaderBound(a, i);
    var next := Offset(a.nodes, i) + H + a.nodes[i].size;
    if next >= a.size - H then None else Some(i + 1)
  }

  lemma NextHeaderBound(a: FixedBufferAllocator, i: nat)
    requires Tiled(a) && i < |a.nodes|
    ensures Offset(a.nodes, i + 1) == Offset(a.nodes, i) + H + a.nodes[i].size
    ensures i + 1 < |a.nodes| ==> Offset(a.nodes, i + 1) + H < a.size
    ensures i + 1 == |a.nodes| ==> Offset(a.nodes, i + 1) == a.size
  {
    OffsetStep(a.nodes, i);
    SumSplit(a.nodes, i + 1);
    if i + 1 < |a.nodes| {
      OffsetBound(a.nodes, i + 1);
    } else {
      assert a.nodes[..i + 1] == a.nodes;
    }
  }

  /** getNodeAtIndex, from node i: `steps` applications of node_next, or none when the
      list ends first. */
  function NodeAtIndexFrom(a: FixedBufferAllocator, i: nat, steps: nat): (r: Option<nat>)
    requires Tiled(a) && i < |a.nodes|
    ensures r == if i + steps < |a.nodes| then Some(i + steps) else None
    decreases steps
  {
    if steps == 0 then Some(i)
    else match NodeNext(a, i)
      case None => None
      case Some(j) => NodeAtIndexFrom(a, j, steps - 1)
  }

  /** node_find, from node i: the first node whose payload starts exactly at p. Holes
      match too. */
  function FindFrom(a: FixedBufferAllocator, i: nat, p: nat): (r: Option<nat>)
    requires Tiled(a) && i < |a.nodes|
    ensures r.Some? ==> i <= r.value < |a.nodes| && Payload(a, r.value) == p
    ensures forall j :: i <= j < |a.nodes| && Payload(a, j) == p ==> r.Some? && r.value <= j
    decreases |a.nodes| - i
  {
    if Payload(a, i) == p then Some(i)
    else match NodeNext(a, i)
      case None => None
      case Some(j) => FindFrom(a, j, p)
  }

  function Find(a: FixedBufferAllocator, p: nat): (r: Option<nat>)
    requires Tiled(a)
  {
    FindFrom(a, 0, p)
  }

  /** Payload addresses are distinct, so a found node is the only one at that address. */
  lemma PayloadInjective(a: FixedBufferAllocator, i: nat, j: nat)
    requires Tiled(a) && i < |a.nodes| && j < |a.nodes| && Payload(a, i) == Payload(a, j)
    ensures i == j
  {
    if i < j {
      OffsetMonotone(a.nodes, i, j);
    } else if j < i {
      OffsetMonotone(a.nodes, j, i);
    }
  }

  /** node_find returns NULL for memory the allocator does not manage: whatever it finds
      lies between the first payload and the end of the buffer. */
  lemma FindInsideBuffer(a: FixedBufferAllocator, p: nat)
    requires Tiled(a)
    ensures Find(a, p).Some? ==> a.buffer + H <= p <= a.buffer + a.size
  {
    if Find(a, p).Some? {
      OffsetBound(a.nodes, Find(a, p).value);
    }
  }

  /** node_find never matches a pointer into the middle of a payload or into the header
      that follows it. */
  lemma FindMissesInterior(a: FixedBufferAllocator, j: nat, p: nat)
    requires Tiled(a) && j < |a.nodes|
    requires Payload(a, j) < p < Payload(a, j) + a.nodes[j].size + H
    ensures Find(a, p) == None
  {
    if Find(a, p).Some? {
      var i := Find(a, p).value;
      if i < j {
        OffsetMonotone(a.nodes, i, j);
      } else if j < i {
        OffsetMonotone(a.nodes, j, i);
      }
    }
  }

  /** A node is a candidate for a request of n bytes. */
  predicate Fits(x: Node, n: nat)
  {
    x.isHole && x.size >= n
  }

  /** The first-fit scan from node i: the first hole holding at least n bytes. */
  function FirstFitFrom(a: FixedBufferAllocator, i: nat, n: nat): (r: Option<nat>)
    requires Tiled(a) && i < |a.nodes|
    ensures r.Some? ==> i <= r.value < |a.nodes| && Fits(a.nodes[r.value], n)
    ensures forall j :: i <= j < |a.nodes| && Fits(a.nodes[j], n) ==> r.Some? && r.value <= j
    decreases |a.nodes| - i
  {
    if Fits(a.nodes[i], n) then Some(i)
    else match NodeNext(a, i)
      case None => None
      case Some(j) => FirstFitFrom(a, j, n)
  }

  // ---------------------------------------------------------------------------
  // Reservation and release

  /** node_reserve: turn hole i into a used node for a request of n bytes. The hole is
      split when it exceeds the request by more than a header: the used node keeps
      exactly n bytes and a new hole with the rest follows it, and the old successor's
      back-link is re-pointed at that new hole. Otherwise the whole hole is used. */
  function Reserve(a: FixedBufferAllocator, i: nat, n: nat): (r: FixedBufferAllocator)
    requires Valid(a) && i < |a.nodes| && a.nodes[i].isHole && 0 < n <= a.nodes[i].size
    ensures Valid(r)
    ensures r.cap == a.cap && r.buffer == a.buffer && r.size == a.size
    ensures i < |r.nodes| && r.nodes[..i] == a.nodes[..i]
    ensures !r.nodes[i].isHole && Payload(r, i) == Payload(a, i)
    ensures a.nodes[i].size > n + H ==>
              && |r.nodes| == |a.nodes| + 1
              && r.nodes[i].size == n
              && r.nodes[i + 1] == Node(true, a.nodes[i].size - n - H, Some(Offset(a.nodes, i)))
    ensures a.nodes[i].size <= n + H ==> |r.nodes| == |a.nodes| && r.nodes[i].size == a.nodes[i].size
    ensures Payload(a, i) !in Allocations(a)
    ensures Allocations(r) == Allocations(a)[Payload(a, i) := r.nodes[i].size]
  {
    ReserveFacts(a, i, n);
    a.(nodes := ReserveNodes(a, i, n))
  }

  /** The node list after reserving n bytes of hole i. */
  function ReserveNodes(a: FixedBufferAllocator, i: nat, n: nat): seq<Node>
    requires i < |a.nodes|
  {
    var o := Offset(a.nodes, i);
    a.nodes[..i] + ReserveWindow(a.nodes[i], o, n) + ReserveTail(a.nodes[i], a.nodes[i + 1..], o, n)
  }

  /** What hole x at offset o becomes: a used node and the split-off hole, or one used node. */
  function ReserveWindow(x: Node, o: nat, n: nat): seq<Node>
  {
    if x.size > n + H then [Node(false, n, x.previous), Node(true, x.size - n - H, Some(o))]
    else [x.(isHole := false)]
  }

  /** The nodes after the reserved hole: after a split, the first one links to the new hole. */
  function ReserveTail(x: Node, post: seq<Node>, o: nat, n: nat): seq<Node>
  {
    if x.size > n + H then Relink(post, o + H + n) else post
  }

  lemma ReserveFacts(a: FixedBufferAllocator, i: nat, n: nat)
    requires Valid(a) && i < |a.nodes| && a.nodes[i].isHole && 0 < n <= a.nodes[i].size
    ensures var r := a.(nodes := ReserveNodes(a, i, n));
            && Valid(r)
            && i < |r.nodes| && r.nodes[..i] == a.nodes[..i]
            && !r.nodes[i].isHole && Payload(r, i) == Payload(a, i)
            && (a.nodes[i].size > n + H ==>
                  && |r.nodes| == |a.nodes| + 1
                  && r.nodes[i].size == n
                  && r.nodes[i + 1] == Node(true, a.nodes[i].size - n - H, Some(Offset(a.nodes, i))))
            && (a.nodes[i].size <= n + H ==> |r.nodes| == |a.nodes| && r.nodes[i].size == a.nodes[i].size)
            && Payload(a, i) !in Allocations(a)
            && Allocations(r) == Allocations(a)[Payload(a, i) := r.nodes[i].size]
  {
    var x := a.nodes[i];
    var o := Offset(a.nodes, i);
    var pre := a.nodes[..i];
    var post := a.nodes[i + 1..];
    var w := ReserveWindow(x, o, n);
    var post' := ReserveTail(x, post, o, n);
    assert a.nodes == pre + [x] + post;
    assert Sum(pre) == o;
    var r := a.(nodes := pre + w + post');
    assert ReserveNodes(a, i, n) == r.nodes;
    assert Valid(r) by {
      assert ReservePieces(pre, x, post, w, post', n);
      ReserveTiled(a, pre, x, post, w, post', n);
      ReserveLinked(pre, x, post, w, post', n);
      ReserveCoalesced(pre, x, post, w, post', n);
    }
    assert Payload(a, i) !in Allocations(a) && Allocations(r) == Allocations(a)[Payload(a, i) := w[0].size] by {
      assert ReservePieces(pre, x, post, w, post', n);
      ReserveAllocations(pre, x, post, w, post', n, a.buffer);
    }
    assert r.nodes == pre + (w + post');
    assert Offset(r.nodes, i) == o by {
      OffsetConcat(pre, w + post', 0);
      assert (w + post')[..0] == [];
    }
    assert r.nodes[..i] == pre;
  }

  /** The pieces of a reservation: the hole x between pre and post becomes w, and post
      becomes post'. */
  predicate ReservePieces(pre: seq<Node>, x: Node, post: seq<Node>, w: seq<Node>, post': seq<Node>, n: nat)
  {
    var o := Sum(pre);
    && x.isHole && 0 < n <= x.size
    && w == ReserveWindow(x, o, n)
    && post' == ReserveTail(x, post, o, n)
  }

  lemma ReserveTiled(a: FixedBufferAllocator, pre: seq<Node>, x: Node, post: seq<Node>, w: seq<Node>,
                     post': seq<Node>, n: nat)
    requires Tiled(a) && a.nodes == pre + [x] + post && ReservePieces(pre, x, post, w, post', n)
    ensures Tiled(a.(nodes := pre + w + post'))
  {
    SumThree(pre, [x], post);
    SumThree(pre, w, post');
    SumOne(x);
    if x.size > n + H {
      SumTwo(w[0], w[1]);
      SumRelink(post, Sum(pre) + H + n);
      RelinkSizes(post, Sum(pre) + H + n);
    } else {
      SumOne(w[0]);
      if |pre| > 0 {
        assert a.nodes[|pre|] == x;
      }
    }
    SizedReplace(pre, [x], post, w, post');
  }

  lemma ReserveLinked(pre: seq<Node>, x: Node, post: seq<Node>, w: seq<Node>, post': seq<Node>, n: nat)
    requires LinkedFrom(pre + [x] + post, None, 0) && ReservePieces(pre, x, post, w, post', n)
    ensures LinkedFrom(pre + w + post', None, 0)
  {
    var o := Sum(pre);
    var prev := LastLink(pre, None, 0);
    LinkedThree(pre, [x], post, None, 0);
    LinkedThree(pre, w, post', None, 0);
    LinkedSingle(x, prev, o);
    assert Offset([x], 0) == 0 by { assert [x][..0] == []; }
    SumOne(x);
    if x.size > n + H {
      var w0 := w[0];
      var w1 := w[1];
      assert w == [w0] + [w1];
      LinkedConcat([w0], [w1], prev, o);
      LinkedSingle(w0, prev, o);
      LinkedSingle(w1, Some(o), o + H + n);
      SumOne(w0);
      SumTwo(w0, w1);
      assert Offset([w0], 0) == 0 by { assert [w0][..0] == []; }
      assert Offset(w, 1) == H + n by { assert w[..1] == [w0]; }
      LinkedRelink(post, Some(o), o + H + n, o + H + x.size);
    } else {
      LinkedSingle(w[0], prev, o);
      SumOne(w[0]);
      assert Offset(w, 0) == 0 by { assert w[..0] == []; }
    }
  }

  lemma ReserveCoalesced(pre: seq<Node>, x: Node, post: seq<Node>, w: seq<Node>, post': seq<Node>, n: nat)
    requires Coalesced(pre + [x] + post) && ReservePieces(pre, x, post, w, post', n)
    ensures Coalesced(pre + w + post')
  {
    CoalescedConcat(pre + [x], post);
    CoalescedConcat(pre, [x]);
    CoalescedConcat(pre + w, post');
    CoalescedConcat(pre, w);
    if |w| == 2 {
      assert w == [w[0]] + [w[1]];
      CoalescedConcat([w[0]], [w[1]]);
    }
    assert (pre + [x])[|pre + [x]| - 1] == x;
    if |pre| > 0 {
      assert (pre + [x])[|pre| - 1] == pre[|pre| - 1];
    }
    if |post| > 0 {
      assert post'[0].isHole == post[0].isHole;
    }
    assert (pre + w)[|pre + w| - 1] == w[|w| - 1];
  }

  lemma ReserveAllocations(pre: seq<Node>, x: Node, post: seq<Node>, w: seq<Node>, post': seq<Node>, n: nat,
                           base: nat)
    requires ReservePieces(pre, x, post, w, post', n)
    ensures base + Sum(pre) + H !in AllocationsFrom(pre + [x] + post, base)
    ensures AllocationsFrom(pre + w + post', base)
            == AllocationsFrom(pre + [x] + post, base)[base + Sum(pre) + H := w[0].size]
  {
    var _ := ReserveWindowAllocations(x, post, w, post', n, Sum(pre), base);
    InsertWindow(pre, x, post, w, post', base);
  }

  /** Replacing a hole by a window that holds one allocation, when what follows keeps its
      allocations, adds exactly that allocation. */
  lemma InsertWindow(pre: seq<Node>, x: Node, post: seq<Node>, w: seq<Node>, post': seq<Node>, base: nat)
    requires x.isHole && |w| > 0 && Sum(w) == H + x.size
    requires AllocationsFrom(w, base + Sum(pre)) == map[base + Sum(pre) + H := w[0].size]
    requires AllocationsFrom(post', base + Sum(pre) + Sum(w)) == AllocationsFrom(post, base + Sum(pre) + H + x.size)
    ensures base + Sum(pre) + H !in AllocationsFrom(pre + [x] + post, base)
    ensures AllocationsFrom(pre + w + post', base)
            == AllocationsFrom(pre + [x] + post, base)[base + Sum(pre) + H := w[0].size]
  {
    var k := base + Sum(pre) + H;
    var mPost := AllocationsFrom(post, base + Sum(pre) + H + x.size);
    HoleAllocations(pre, x, post, base);
    WindowAllocations(pre, w, post', base, k, w[0].size);
    NotAllocated(pre, base, k);
    NotAllocated(post, base + Sum(pre) + H + x.size, k);
    MapInsert(AllocationsFrom(pre, base), mPost, k, w[0].size);
  }

  /** A hole between two runs adds no allocation. */
  lemma HoleAllocations(pre: seq<Node>, x: Node, post: seq<Node>, base: nat)
    requires x.isHole
    ensures AllocationsFrom(pre + [x] + post, base)
            == AllocationsFrom(pre, base) + AllocationsFrom(post, base + Sum(pre) + H + x.size)
  {
    AllocationsThree(pre, [x], post, base);
    AllocationsSingle(x, base + Sum(pre));
    SumOne(x);
    assert AllocationsFrom(pre, base) + map[] == AllocationsFrom(pre, base);
  }

  /** A window holding one allocation between two runs adds exactly that allocation. */
  lemma WindowAllocations(pre: seq<Node>, w: seq<Node>, post: seq<Node>, base: nat, k: nat, v: nat)
    requires AllocationsFrom(w, base + Sum(pre)) == map[k := v]
    ensures AllocationsFrom(pre + w + post, base)
            == AllocationsFrom(pre, base) + map[k := v] + AllocationsFrom(post, base + Sum(pre) + Sum(w))
  {
    AllocationsThree(pre, w, post, base);
  }

  /** The reserved window holds exactly the new allocation, and what follows it is unchanged. */
  lemma ReserveWindowAllocations(x: Node, post: seq<Node>, w: seq<Node>, post': seq<Node>, n: nat, o: nat,
                                 base: nat) returns (mW: map<nat, nat>)
    requires x.isHole && 0 < n <= x.size
    requires w == ReserveWindow(x, o, n)
    requires post' == ReserveTail(x, post, o, n)
    ensures mW == map[base + o + H := w[0].size]
    ensures AllocationsFrom(w, base + o) == mW
    ensures Sum(w) == H + x.size
    ensures AllocationsFrom(post', base + o + Sum(w)) == AllocationsFrom(post, base + o + H + x.size)
  {
    mW := map[base + o + H := w[0].size];
    if |w| == 2 {
      AllocationsRelink(post, o + H + n, base + o + H + x.size);
      assert w == [w[0]] + [w[1]];
      AllocationsConcat([w[0]], [w[1]], base + o);
      AllocationsSingle(w[0], base + o);
      AllocationsSingle(w[1], base + o + H + n);
      SumOne(w[0]);
      SumTwo(w[0], w[1]);
    } else {
      AllocationsSingle(w[0], base + o);
      SumOne(w[0]);
    }
  }

  /** The node a release merges into, and the nodes it absorbs: node i, its predecessor
      when that is a hole, and its successor when that is a hole. */
  function MergeWindow(a: FixedBufferAllocator, i: nat): (w: (nat, nat))
    requires Valid(a) && i < |a.nodes|
    ensures w.0 <= i < w.1 <= |a.nodes| && w.1 - w.0 <= 3
  {
    var lo := if i > 0 && a.nodes[i - 1].isHole then i - 1 else i;
    var hi := if i + 1 < |a.nodes| && a.nodes[i + 1].isHole then i + 2 else i + 1;
    (lo, hi)
  }

  /** The bytes of a merge window, counted the way node_release adds them up. */
  lemma WindowSum(nodes: seq<Node>, lo: nat, i: nat, hi: nat)
    requires lo <= i < hi <= |nodes| && i - lo <= 1 && hi - i <= 2
    ensures Sum(nodes[lo..hi]) ==
              H + (if lo < i then nodes[lo].size + H else 0) + nodes[i].size
                + (if i + 1 < hi then nodes[i + 1].size + H else 0)
  {
    var w := nodes[lo..hi];
    if lo < i && i + 1 < hi {
      assert w == [nodes[lo]] + [nodes[i], nodes[i + 1]];
      SumConcat([nodes[lo]], [nodes[i], nodes[i + 1]]);
      SumOne(nodes[lo]);
      SumTwo(nodes[i], nodes[i + 1]);
    } else if lo < i {
      assert w == [nodes[lo], nodes[i]];
      SumTwo(nodes[lo], nodes[i]);
    } else if i + 1 < hi {
      assert w == [nodes[i], nodes[i + 1]];
      SumTwo(nodes[i], nodes[i + 1]);
    } else {
      assert w == [nodes[i]];
      SumOne(nodes[i]);
    }
  }

  /** node_release: turn used node i into a hole, merging it into a preceding hole
      (reached through its back-link) and absorbing a following hole; the node after the
      merged hole has its back-link re-pointed at it. */
  function Release(a: FixedBufferAllocator, i: nat): (r: FixedBufferAllocator)
    requires Valid(a) && i < |a.nodes| && !a.nodes[i].isHole
    ensures Valid(r)
    ensures r.cap == a.cap && r.buffer == a.buffer && r.size == a.size
    ensures var (lo, hi) := MergeWindow(a, i);
            && |r.nodes| == |a.nodes| - (hi - lo - 1)
            && r.nodes[..lo] == a.nodes[..lo]
            && r.nodes[lo].isHole && Offset(r.nodes, lo) == Offset(a.nodes, lo)
            && Offset(r.nodes, lo) + H + r.nodes[lo].size == Offset(a.nodes, hi)
    ensures Payload(a, i) in Allocations(a)
    ensures Allocations(r) == Allocations(a) - {Payload(a, i)}
  {
    ReleaseFacts(a, i);
    a.(nodes := ReleaseNodes(a, i))
  }

  /** node_release's two merge steps: absorb a hole just before node i (found through
      its back-link), then a hole just after it (found through node_next). The result is
      the first node of the merged run, the end of the run, and the merged size. */
  function MergeSteps(a: FixedBufferAllocator, i: nat): (m: (nat, nat, nat))
    requires Valid(a) && i < |a.nodes|
    ensures (m.0, m.1) == MergeWindow(a, i)
    ensures H + m.2 == Sum(a.nodes[m.0..m.1])
  {
    var x := a.nodes[i];
    LinkedPrevious(a.nodes, 0, i);
    // With correct back-links, x.previous is the offset of node i - 1.
    var backward := x.previous.Some? && a.nodes[i - 1].isHole;
    var lo := if backward then i - 1 else i;
    var size1 := if backward then a.nodes[i - 1].size + x.size + H else x.size;
    var forward := NodeNext(a, i).Some? && a.nodes[i + 1].isHole;
    var hi := if forward then i + 2 else i + 1;
    var size2 := if forward then size1 + a.nodes[i + 1].size + H else size1;
    WindowSum(a.nodes, lo, i, hi);
    (lo, hi, size2)
  }

  /** The node list after releasing node i: the merged run becomes one hole that keeps
      the run's first back-link, and the node after it is re-pointed at that hole. */
  function ReleaseNodes(a: FixedBufferAllocator, i: nat): seq<Node>
    requires Valid(a) && i < |a.nodes|
  {
    var (lo, hi, size) := MergeSteps(a, i);
    a.nodes[..lo] + [Node(true, size, a.nodes[lo].previous)] + Relink(a.nodes[hi..], Offset(a.nodes, lo))
  }

  /** The hole a release leaves: it spans the whole merge window and keeps the back-link
      of the window's first node. */
  function MergedHole(a: FixedBufferAllocator, i: nat): (m: Node)
    requires Valid(a) && i < |a.nodes|
    ensures m.isHole && m.previous == a.nodes[MergeWindow(a, i).0].previous
    ensures H + m.size == Sum(a.nodes[MergeWindow(a, i).0..MergeWindow(a, i).1])
  {
    var (lo, hi) := MergeWindow(a, i);
    WindowSum(a.nodes, lo, i, hi);
    Node(true, Sum(a.nodes[lo..hi]) - H, a.nodes[lo].previous)
  }

  /** The source's two merge steps build the window's merged hole. */
  lemma ReleaseShape(a: FixedBufferAllocator, i: nat)
    requires Valid(a) && i < |a.nodes|
    ensures var (lo, hi) := MergeWindow(a, i);
            ReleaseNodes(a, i) == a.nodes[..lo] + [MergedHole(a, i)] + Relink(a.nodes[hi..], Offset(a.nodes, lo))
  {
    var (lo, hi, size) := MergeSteps(a, i);
    assert Node(true, size, a.nodes[lo].previous) == MergedHole(a, i);
  }

  lemma ReleaseFacts(a: FixedBufferAllocator, i: nat)
    requires Valid(a) && i < |a.nodes| && !a.nodes[i].isHole
    ensures var r := a.(nodes := ReleaseNodes(a, i));
            var (lo, hi) := MergeWindow(a, i);
            && Valid(r)
            && |r.nodes| == |a.nodes| - (hi - lo - 1)
            && r.nodes[..lo] == a.nodes[..lo]
            && r.nodes[lo].isHole && Offset(r.nodes, lo) == Offset(a.nodes, lo)
            && Offset(r.nodes, lo) + H + r.nodes[lo].size == Offset(a.nodes, hi)
            && Payload(a, i) in Allocations(a)
            && Allocations(r) == Allocations(a) - {Payload(a, i)}
  {
    var (lo, hi) := MergeWindow(a, i);
    ReleaseShape(a, i);
    assert Valid(a.(nodes := ReleaseNodes(a, i))) by {
      ReleaseValid(a, i);
    }
    assert Payload(a, i) in Allocations(a) by {
      ReleaseAllocations(a, i);
    }
    assert AllocationsFrom(ReleaseNodes(a, i), a.buffer) == Allocations(a) - {Payload(a, i)} by {
      ReleaseAllocations(a, i);
    }
    ReleaseLayout(a, i);
  }

  lemma ReleaseValid(a: FixedBufferAllocator, i: nat)
    requires Valid(a) && i < |a.nodes| && !a.nodes[i].isHole
    ensures var (lo, hi) := MergeWindow(a, i);
            Valid(a.(nodes := a.nodes[..lo] + [MergedHole(a, i)] + Relink(a.nodes[hi..], Offset(a.nodes, lo))))
  {
    var (lo, hi) := MergeWindow(a, i);
    var pre := a.nodes[..lo];
    var win := a.nodes[lo..hi];
    var post := a.nodes[hi..];
    var merged := MergedHole(a, i);
    var r := a.(nodes := pre + [merged] + Relink(post, Sum(pre)));
    assert a.nodes == pre + win + post;
    assert Tiled(r) by {
      ReleaseTiled(a, pre, win, post, merged);
    }
    assert LinkedFrom(r.nodes, None, 0) by {
      ReleaseLinked(pre, win, post, merged);
    }
    assert Coalesced(r.nodes) by {
      ReleaseNeighbours(a, i, lo, hi);
      CoalescedParts(pre, win, post);
      ReleaseCoalesced(pre, post, merged, Sum(pre));
    }
  }

  lemma ReleaseLayout(a: FixedBufferAllocator, i: nat)
    requires Valid(a) && i < |a.nodes| && !a.nodes[i].isHole
    ensures var (lo, hi) := MergeWindow(a, i);
            var nodes := a.nodes[..lo] + [MergedHole(a, i)] + Relink(a.nodes[hi..], Offset(a.nodes, lo));
            && |nodes| == |a.nodes| - (hi - lo - 1)
            && nodes[..lo] == a.nodes[..lo]
            && nodes[lo].isHole && Offset(nodes, lo) == Offset(a.nodes, lo)
            && Offset(nodes, lo) + H + nodes[lo].size == Offset(a.nodes, hi)
  {
    var (lo, hi) := MergeWindow(a, i);
    MergedLayout(a.nodes, lo, hi, MergedHole(a, i));
  }

  /** Where the merged hole sits once it replaces nodes[lo..hi]. */
  lemma MergedLayout(nodes: seq<Node>, lo: nat, hi: nat, merged: Node)
    requires lo <= hi <= |nodes| && merged.isHole && H + merged.size == Sum(nodes[lo..hi])
    ensures var r := nodes[..lo] + [merged] + Relink(nodes[hi..], Offset(nodes, lo));
            && |r| == |nodes| - (hi - lo - 1)
            && r[..lo] == nodes[..lo]
            && r[lo].isHole && Offset(r, lo) == Offset(nodes, lo)
            && Offset(r, lo) + H + r[lo].size == Offset(nodes, hi)
  {
    var pre := nodes[..lo];
    var win := nodes[lo..hi];
    var rest := [merged] + Relink(nodes[hi..], Sum(pre));
    assert pre + [merged] + Relink(nodes[hi..], Sum(pre)) == pre + rest;
    assert (pre + rest)[..lo] == pre;
    assert Offset(pre + rest, lo) == Sum(pre) by {
      OffsetPrefix(pre, rest, lo);
      assert pre[..lo] == pre;
    }
    assert Offset(nodes, hi) == Sum(pre) + Sum(win) by {
      assert nodes[..hi] == pre + win;
      SumConcat(pre, win);
    }
  }

  /** The nodes just outside a merge window are used, and inside it only node i is. */
  lemma ReleaseNeighbours(a: FixedBufferAllocator, i: nat, lo: nat, hi: nat)
    requires Valid(a) && i < |a.nodes| && (lo, hi) == MergeWindow(a, i)
    ensures lo > 0 ==> !a.nodes[lo - 1].isHole
    ensures hi < |a.nodes| ==> !a.nodes[hi].isHole
    ensures forall k :: lo <= k < hi && k != i ==> a.nodes[k].isHole
  {
    if lo < i && lo > 0 {
      CoalescedAt(a.nodes, lo - 1);
    }
    if hi > i + 1 && hi < |a.nodes| {
      CoalescedAt(a.nodes, hi - 1);
    }
  }

  lemma ReleaseTiled(a: FixedBufferAllocator, pre: seq<Node>, win: seq<Node>, post: seq<Node>, merged: Node)
    requires Tiled(a) && a.nodes == pre + win + post && |win| > 0
    requires H + merged.size == Sum(win)
    ensures Tiled(a.(nodes := pre + [merged] + Relink(post, Sum(pre))))
  {
    SumThree(pre, win, post);
    SumThree(pre, [merged], Relink(post, Sum(pre)));
    SumOne(merged);
    SumRelink(post, Sum(pre));
    assert Sum(win) >= H + win[0].size by { assert win == [win[0]] + win[1..]; }
    if |pre| > 0 {
      assert a.nodes[|pre|] == win[0];
    }
    RelinkSizes(post, Sum(pre));
    SizedReplace(pre, win, post, [merged], Relink(post, Sum(pre)));
  }

  lemma ReleaseLinked(pre: seq<Node>, win: seq<Node>, post: seq<Node>, merged: Node)
    requires LinkedFrom(pre + win + post, None, 0) && |win| > 0
    requires merged.previous == win[0].previous && H + merged.size == Sum(win)
    ensures LinkedFrom(pre + [merged] + Relink(post, Sum(pre)), None, 0)
  {
    assert pre + win + post == pre + (win + post);
    assert pre + [merged] + Relink(post, Sum(pre)) == pre + ([merged] + Relink(post, Sum(pre)));
    LinkedConcat(pre, win + post, None, 0);
    LinkedConcat(pre, [merged] + Relink(post, Sum(pre)), None, 0);
    MergedLinked(win, post, merged, LastLink(pre, None, 0), Sum(pre));
  }

  /** Replacing a linked window by one node spanning it, and re-pointing the node after it. */
  lemma MergedLinked(win: seq<Node>, post: seq<Node>, merged: Node, prev: Option<nat>, o: nat)
    requires LinkedFrom(win + post, prev, o) && |win| > 0
    requires merged.previous == win[0].previous && H + merged.size == Sum(win)
    ensures LinkedFrom([merged] + Relink(post, o), prev, o)
  {
    LinkedConcat(win, post, prev, o);
    assert LinkedFrom(post, LastLink(win, prev, o), o + Sum(win));
    LinkedRelink(post, LastLink(win, prev, o), o, o + Sum(win));
    LinkedConcat([merged], Relink(post, o), prev, o);
    LinkedSingle(merged, prev, o);
    SumOne(merged);
    assert [merged][..0] == [];
  }

  lemma ReleaseCoalesced(pre: seq<Node>, post: seq<Node>, merged: Node, target: nat)
    requires Coalesced(pre) && Coalesced(post)
    requires |pre| > 0 ==> !pre[|pre| - 1].isHole
    requires |post| > 0 ==> !post[0].isHole
    ensures Coalesced(pre + [merged] + Relink(post, target))
  {
    var post' := Relink(post, target);
    assert Coalesced([merged] + post') by {
      RelinkCoalesced(post, target);
      CoalescedConcat([merged], post');
    }
    assert Coalesced(pre + ([merged] + post')) by {
      CoalescedConcat(pre, [merged] + post');
    }
    assert pre + [merged] + post' == pre + ([merged] + post');
  }

  /** The outer parts of a coalesced run are coalesced. */
  lemma CoalescedParts(pre: seq<Node>, win: seq<Node>, post: seq<Node>)
    requires Coalesced(pre + win + post)
    ensures Coalesced(pre) && Coalesced(post)
  {
    assert pre + win + post == pre + (win + post);
    CoalescedConcat(pre, win + post);
    CoalescedConcat(win, post);
  }

  lemma RelinkCoalesced(nodes: seq<Node>, target: nat)
    requires Coalesced(nodes)
    ensures Coalesced(Relink(nodes, target))
  {
    var r := Relink(nodes, target);
    if |nodes| > 0 {
      assert r == [r[0]] + nodes[1..];
      assert nodes == [nodes[0]] + nodes[1..];
      CoalescedConcat([r[0]], nodes[1..]);
      CoalescedConcat([nodes[0]], nodes[1..]);
    }
  }

  /** Releasing node i removes exactly its allocation. */
  lemma ReleaseAllocations(a: FixedBufferAllocator, i: nat)
    requires Valid(a) && i < |a.nodes| && !a.nodes[i].isHole
    ensures Payload(a, i) in Allocations(a)
    ensures var (lo, hi) := MergeWindow(a, i);
            var r := a.nodes[..lo] + [MergedHole(a, i)] + Relink(a.nodes[hi..], Offset(a.nodes, lo));
            AllocationsFrom(r, a.buffer) == Allocations(a) - {Payload(a, i)}
  {
    var (lo, hi) := MergeWindow(a, i);
    ReleaseWindowAllocation(a, i);
    ReplaceWindowAt(a.nodes, lo, hi, MergedHole(a, i), Payload(a, i), a.nodes[i].size, a.buffer);
  }

  /** ReplaceWindow, with the window given by its bounds. */
  lemma ReplaceWindowAt(nodes: seq<Node>, lo: nat, hi: nat, merged: Node, p: nat, v: nat, base: nat)
    requires lo <= hi <= |nodes|
    requires AllocationsFrom(nodes[lo..hi], base + Sum(nodes[..lo])) == map[p := v]
    requires merged.isHole && H + merged.size == Sum(nodes[lo..hi])
    ensures p in AllocationsFrom(nodes, base)
    ensures AllocationsFrom(nodes[..lo] + [merged] + Relink(nodes[hi..], Offset(nodes, lo)), base)
              == AllocationsFrom(nodes, base) - {p}
  {
    var pre := nodes[..lo];
    var post := nodes[hi..];
    assert nodes == pre + (nodes[lo..hi] + post);
    assert pre + [merged] + Relink(post, Sum(pre)) == pre + ([merged] + Relink(post, Sum(pre)));
    ReplaceWindow(pre, nodes[lo..hi], post, merged, p, v, base);
  }

  /** Replacing a window that holds one allocation by a hole spanning it, with the rest
      relinked, drops that allocation and keeps all others. */
  lemma ReplaceWindow(pre: seq<Node>, win: seq<Node>, post: seq<Node>, merged: Node, p: nat, v: nat, base: nat)
    requires AllocationsFrom(win, base + Sum(pre)) == map[p := v]
    requires merged.isHole && H + merged.size == Sum(win)
    ensures p in AllocationsFrom(pre + (win + post), base)
    ensures AllocationsFrom(pre + ([merged] + Relink(post, Sum(pre))), base) == AllocationsFrom(pre + (win + post), base) - {p}
  {
    var mPre := AllocationsFrom(pre, base);
    var mRest := AllocationsFrom(win + post, base + Sum(pre));
    assert p in mRest && AllocationsFrom([merged] + Relink(post, Sum(pre)), base + Sum(pre)) == mRest - {p} by {
      MergedAllocations(win, post, merged, p, v, Sum(pre), base + Sum(pre));
    }
    assert AllocationsFrom(pre + (win + post), base) == mPre + mRest && p !in mPre by {
      AllocationsConcat(pre, win + post, base);
    }
    assert AllocationsFrom(pre + ([merged] + Relink(post, Sum(pre))), base) == mPre + (mRest - {p}) by {
      AllocationsConcat(pre, [merged] + Relink(post, Sum(pre)), base);
    }
    MapRemoveRight(mPre, mRest, p);
  }

  /** The merge window of a release holds one allocation: the block being released. */
  lemma ReleaseWindowAllocation(a: FixedBufferAllocator, i: nat)
    requires Valid(a) && i < |a.nodes| && !a.nodes[i].isHole
    ensures var (lo, hi) := MergeWindow(a, i);
            AllocationsFrom(a.nodes[lo..hi], a.buffer + Sum(a.nodes[..lo])) == map[Payload(a, i) := a.nodes[i].size]
  {
    var (lo, hi) := MergeWindow(a, i);
    var pre := a.nodes[..lo];
    var win := a.nodes[lo..hi];
    ReleaseNeighbours(a, i, lo, hi);
    OneAllocation(win, i - lo, a.buffer + Sum(pre));
    assert a.nodes[..i] == pre + win[..i - lo];
    SumConcat(pre, win[..i - lo]);
  }

  /** Replacing a window holding one allocation by a hole spanning it drops that allocation. */
  lemma MergedAllocations(win: seq<Node>, post: seq<Node>, merged: Node, p: nat, v: nat, target: nat, base: nat)
    requires AllocationsFrom(win, base) == map[p := v]
    requires merged.isHole && H + merged.size == Sum(win)
    ensures p in AllocationsFrom(win + post, base)
    ensures AllocationsFrom([merged] + Relink(post, target), base) == AllocationsFrom(win + post, base) - {p}
  {
    AllocationsConcat(win, post, base);
    AllocationsConcat([merged], Relink(post, target), base);
    AllocationsSingle(merged, base);
    SumOne(merged);
    AllocationsRelink(post, target, base + Sum(win));
    MapRemove(map[], AllocationsFrom(post, base + Sum(win)), p, v);
    assert map[] + map[p := v] == map[p := v];
  }

  /** A run whose only used node is node j holds exactly that node's allocation. */
  lemma OneAllocation(nodes: seq<Node>, j: nat, base: nat)
    requires j < |nodes| && !nodes[j].isHole
    requires forall k :: 0 <= k < |nodes| && k != j ==> nodes[k].isHole
    ensures AllocationsFrom(nodes, base) == map[base + Offset(nodes, j) + H := nodes[j].size]
  {
    var left := nodes[..j];
    var right := nodes[j + 1..];
    var x := nodes[j];
    assert nodes == left + ([x] + right);
    assert forall k :: 0 <= k < |left| ==> left[k].isHole by {
      forall k | 0 <= k < |left| ensures left[k].isHole {
        assert left[k] == nodes[k];
      }
    }
    assert forall k :: 0 <= k < |right| ==> right[k].isHole by {
      forall k | 0 <= k < |right| ensures right[k].isHole {
        assert right[k] == nodes[j + 1 + k];
      }
    }
    var mLeft := AllocationsFrom(left, base);
    var mRight := AllocationsFrom(right, base + Sum(left) + H + x.size);
    assert mLeft == map[] by {
      AllocationsEmpty(left, base);
    }
    assert mRight == map[] by {
      AllocationsEmpty(right, base + Sum(left) + H + x.size);
    }
    assert AllocationsFrom(nodes, base) == mLeft + map[base + Sum(left) + H := x.size] + mRight by {
      assert nodes == left + [x] + right;
      AllocationsThree(left, [x], right, base);
      AllocationsSingle(x, base + Sum(left));
      SumOne(x);
    }
    assert map[] + map[base + Sum(left) + H := x.size] + map[] == map[base + Sum(left) + H := x.size];
  }

  // ---------------------------------------------------------------------------
  // Allocations and lookup

  /** The allocation map and node_find agree: p is allocated exactly when node_find
      reaches a used node at p, and the allocation's size is that node's. */
  lemma FindAllocation(a: FixedBufferAllocator, p: nat)
    requires Tiled(a)
    ensures p in Allocations(a) <==> Find(a, p).Some? && !a.nodes[Find(a, p).value].isHole
    ensures p in Allocations(a) ==> Allocations(a)[p] == a.nodes[Find(a, p).value].size
  {
    if p in Allocations(a) {
      var i := AllocationsWitness(a.nodes, a.buffer, p);
      assert Payload(a, i) == p;
      PayloadInjective(a, i, Find(a, p).value);
    }
    if Find(a, p).Some? && !a.nodes[Find(a, p).value].isHole {
      AllocationsAt(a.nodes, a.buffer, Find(a, p).value);
    }
  }

  /** Every allocation lies inside the buffer after its header, and no two overlap. */
  lemma AllocationsDisjoint(a: FixedBufferAllocator)
    requires Valid(a)
    ensures forall q :: q in Allocations(a) ==> a.buffer + H <= q && q + Allocations(a)[q] <= a.buffer + a.size
    ensures forall q1, q2 :: q1 in Allocations(a) && q2 in Allocations(a) && q1 < q2 ==>
              q1 + Allocations(a)[q1] + H <= q2
  {
    AllocationsBounds(a.nodes, a.buffer);
    AllocationsSeparated(a.nodes, a.buffer);
  }

  /** Two valid allocators over the same buffer with the same allocations have the same
      headers: the layout is a function of what is allocated. */
  lemma StateDetermined(a: FixedBufferAllocator, b: FixedBufferAllocator)
    requires Valid(a) && Valid(b)
    requires a.cap == b.cap && a.buffer == b.buffer && a.size == b.size
    requires Allocations(a) == Allocations(b)
    ensures a == b
  {
    LayoutDetermined(a.nodes, b.nodes, None, 0, a.buffer);
  }

  // ---------------------------------------------------------------------------
  // The resize function

  /** What one call of the resize function does: the new state, the pointer it returns,
      and the memcpy it performs, if any. */
  datatype Outcome = Outcome(state: FixedBufferAllocator, result: Ptr, copy: Option<Copy>)

  /** Node j is the first hole that can hold n bytes. */
  predicate IsFirstFit(a: FixedBufferAllocator, j: nat, n: nat)
  {
    && j < |a.nodes| && Fits(a.nodes[j], n)
    && forall k :: 0 <= k < j ==> !Fits(a.nodes[k], n)
  }

  /** The (NULL, n) branch: reserve n bytes out of the first hole large enough. The block
      handed out holds at least n bytes and at most one header more, is new, and is the
      only change to the allocations; NULL means no hole fits, and nothing changes. */
  function AllocateBlock(a: FixedBufferAllocator, n: Positive): (o: Outcome)
    requires Valid(a)
    ensures Valid(o.state) && o.copy.None?
    ensures o.state.cap == a.cap && o.state.buffer == a.buffer && o.state.size == a.size
    ensures o.result.Some? <==> exists j :: 0 <= j < |a.nodes| && Fits(a.nodes[j], n)
    ensures o.result.None? ==> o.state == a
    ensures o.result.Some? ==> exists j :: IsFirstFit(a, j, n) && o.result.value == Payload(a, j)
    ensures o.result.Some? ==>
              var q := o.result.value;
              && q !in Allocations(a) && q in Allocations(o.state)
              && n <= Allocations(o.state)[q] <= n + H
              && Allocations(o.state) == Allocations(a)[q := Allocations(o.state)[q]]
  {
    match FirstFitFrom(a, 0, n)
    case None => Outcome(a, None, None)
    case Some(i) =>
      assert IsFirstFit(a, i, n);
      Outcome(Reserve(a, i, n), Some(Payload(a, i)), None)
  }

  /** A pointer the (p, 0) branch accepts: anything but the payload of a hole. node_release
      asserts that the node it is given is in use, so freeing a hole's payload stops the
      program. */
  predicate NotHolePayload(a: FixedBufferAllocator, p: nat)
    requires Tiled(a)
  {
    Find(a, p).None? || !a.nodes[Find(a, p).value].isHole
  }

  /** The (p, 0) branch: release the node at p. Exactly p leaves the allocations; a pointer
      the allocator did not hand out changes nothing. */
  function FreeBlock(a: FixedBufferAllocator, p: nat): (o: Outcome)
    requires Valid(a) && NotHolePayload(a, p)
    ensures Valid(o.state) && o.result.None? && o.copy.None?
    ensures o.state.cap == a.cap && o.state.buffer == a.buffer && o.state.size == a.size
    ensures Allocations(o.state) == Allocations(a) - {p}
    ensures p !in Allocations(a) ==> o.state == a
  {
    FindAllocation(a, p);
    match Find(a, p)
    case None => Outcome(a, None, None)
    case Some(i) => Outcome(Release(a, i), None, None)
  }

  /** The (p, n) branch. An unknown p yields NULL. A node already holding n bytes is kept
      and p returned. Otherwise the block moves (see Move). */
  function ResizeBlock(a: FixedBufferAllocator, p: nat, n: Positive): (o: Outcome)
    requires Valid(a)
    ensures Valid(o.state)
    ensures o.state.cap == a.cap && o.state.buffer == a.buffer && o.state.size == a.size
    ensures Find(a, p).None? ==> o == Outcome(a, None, None)
    ensures Find(a, p).Some? && n <= a.nodes[Find(a, p).value].size ==> o == Outcome(a, Some(p), None)
    ensures Find(a, p).Some? && n > a.nodes[Find(a, p).value].size ==> o == Move(a, p, Find(a, p).value, n)
  {
    match Find(a, p)
    case None => Outcome(a, None, None)
    case Some(i) => if n <= a.nodes[i].size then Outcome(a, Some(p), None) else Move(a, p, i, n)
  }

  /** A growing resize of the block at p, node i: n bytes are allocated first fit, the old
      payload is copied there, and the old node is released. When nothing fits, NULL is
      returned and the old block stays. */
  function Move(a: FixedBufferAllocator, p: nat, i: nat, n: Positive): (o: Outcome)
    requires Valid(a) && Find(a, p) == Some(i) && n > a.nodes[i].size
    ensures Valid(o.state)
    ensures o.state.cap == a.cap && o.state.buffer == a.buffer && o.state.size == a.size
    ensures o.result.Some? <==> exists j :: 0 <= j < |a.nodes| && Fits(a.nodes[j], n)
    ensures o.result.None? ==> o == Outcome(a, None, None)
    ensures o.result.Some? ==>
              var q := o.result.value;
              && o.copy == Some(Copy(p, o.result, a.nodes[i].size))
              && q !in Allocations(a) && q in Allocations(o.state)
              && n <= Allocations(o.state)[q] <= n + H
              && Allocations(o.state) == (Allocations(a) - {p})[q := Allocations(o.state)[q]]
  {
    FindAllocation(a, p);
    var g := AllocateBlock(a, n);
    match g.result
    case None => Outcome(a, None, None)
    case Some(q) =>
      var s := if a.nodes[i].isHole then g.state else FreeAfterMove(a, g, p);
      MoveAllocations(Allocations(a), Allocations(s), p, q, Allocations(g.state)[q], !a.nodes[i].isHole);
      Outcome(s, Some(q), Some(Copy(p, Some(q), a.nodes[i].size)))
  }

  /** The allocation map after a move: the new key added, the old one dropped. */
  lemma MoveAllocations(m: map<nat, nat>, m': map<nat, nat>, p: nat, q: nat, v: nat, used: bool)
    requires q !in m && (p in m <==> used)
    requires m' == if used then m[q := v] - {p} else m[q := v]
    ensures m' == (m - {p})[q := v]
  {
  }

  /** The old block released after a successful move: it is still allocated, since the
      new block is a different one. */
  function FreeAfterMove(a: FixedBufferAllocator, g: Outcome, p: nat): (s: FixedBufferAllocator)
    requires Valid(a) && p in Allocations(a)
    requires Valid(g.state) && g.result.Some? && g.result.value !in Allocations(a)
    requires g.result.value in Allocations(g.state)
    requires Allocations(g.state) == Allocations(a)[g.result.value := Allocations(g.state)[g.result.value]]
    ensures Valid(s)
    ensures s.cap == g.state.cap && s.buffer == g.state.buffer && s.size == g.state.size
    ensures Allocations(s) == Allocations(g.state) - {p}
  {
    FindAllocation(g.state, p);
    FreeBlock(g.state, p).state
  }

  /** first_fit_reallocate: the four-case resize function of a fixed buffer allocator.
      Whatever the call, the layout invariant holds after it, and only the block named by
      the call and the block returned change in the allocations. */
  function Resize(a: FixedBufferAllocator, memory: Ptr, size: nat): (o: Outcome)
    requires Valid(a)
    requires memory.Some? && size == 0 ==> NotHolePayload(a, memory.value)
    ensures Valid(o.state)
    ensures o.state.cap == a.cap && o.state.buffer == a.buffer && o.state.size == a.size
    ensures size == 0 ==> o.result.None?
    ensures memory.Some? && size == 0 ==> Allocations(o.state) == Allocations(a) - {memory.value}
    ensures o.copy.Some? ==> memory.Some? && size > 0 && o.copy.value.src == memory.value && o.copy.value.dst == o.result
    ensures forall q :: q in Allocations(o.state) && Some(q) != o.result ==>
              q in Allocations(a) && Allocations(o.state)[q] == Allocations(a)[q]
    ensures forall q :: q in Allocations(a) && Some(q) != memory ==> q in Allocations(o.state)
  {
    match Classify(memory, size)
    case NoOp => Outcome(a, None, None)
    case AllocReq(n) => AllocateBlock(a, n)
    case FreeReq(p) => FreeBlock(a, p)
    case ResizeReq(p, n) => ResizeBlock(a, p, n)
  }

  /** fixed_buffer_allocator_debug_memory: the offset of p inside the buffer when p is the
      payload of a node, and SIZE_MAX (size_t -1) otherwise. An offset never collides with
      the not-found value. */
  function DebugMemory(a: FixedBufferAllocator, p: nat): (r: nat)
    requires Tiled(a)
    ensures r == SIZE_MAX <==> Find(a, p).None?
    ensures Find(a, p).Some? ==> r == Offset(a.nodes, Find(a, p).value) + H && a.buffer + r == p
    ensures p in Allocations(a) ==> H <= r && r + Allocations(a)[p] <= a.size
  {
    FindInsideBuffer(a, p);
    FindAllocation(a, p);
    AllocationsBounds(a.nodes, a.buffer);
    match Find(a, p)
    case None => SIZE_MAX
    case Some(_) => p - a.buffer
  }

  // ---------------------------------------------------------------------------
  // Properties across calls

  /** Freeing a block just allocated restores the allocator exactly: the split hole is
      merged back, and back-links are as before. */
  lemma AllocateFreeRoundTrip(a: FixedBufferAllocator, n: Positive)
    requires Valid(a)
    ensures var g := AllocateBlock(a, n);
            g.result.Some? ==> NotHolePayload(g.state, g.result.value) && FreeBlock(g.state, g.result.value).state == a
  {
    var g := AllocateBlock(a, n);
    if g.result.Some? {
      var q := g.result.value;
      assert NotHolePayload(g.state, q) by {
        FindAllocation(g.state, q);
      }
      var f := FreeBlock(g.state, q).state;
      assert Allocations(f) == Allocations(a) by {
        MapUndo(Allocations(a), q, Allocations(g.state)[q]);
      }
      StateDetermined(f, a);
    }
  }

  /** A second free of the same pointer: when the released node merged backwards into a
      hole, p is no longer any node's payload and the second free does nothing; otherwise
      p is now a hole's payload, which node_release refuses. */
  lemma SecondFree(a: FixedBufferAllocator, i: nat)
    requires Valid(a) && i < |a.nodes| && !a.nodes[i].isHole
    ensures NotHolePayload(Release(a, i), Payload(a, i)) <==> i > 0 && a.nodes[i - 1].isHole
  {
    var r := Release(a, i);
    var p := Payload(a, i);
    var (lo, hi) := MergeWindow(a, i);
    if lo == i {
      assert Payload(r, lo) == p;
      PayloadInjective(r, lo, Find(r, p).value);
    } else {
      assert Offset(a.nodes, i) == Offset(a.nodes, lo) + H + a.nodes[lo].size by {
        OffsetStep(a.nodes, lo);
      }
      OffsetMonotone(a.nodes, i, hi);
      FindMissesInterior(r, lo, p);
    }
  }
}
