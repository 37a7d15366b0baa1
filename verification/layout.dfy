/**
 * The node list a fixed buffer allocator writes into its buffer, seen as a sequence of
 * boundary-tag headers in address order. A node at offset o occupies H header bytes and
 * then `size` payload bytes, so the next node starts at o + H + size; offsets are the
 * prefix sums of H + size. Back-links are kept as the offset of the previous header.
 */
module Layout {
  import opened Wrappers
  import opened Allocator

  /** sizeof(node_t): platform dependent, only known to be positive. */
  const H: Positive

  /** A node header: whether it is a hole, its payload size, and the offset of the
      header that precedes it (None for the first node). */
  datatype Node = Node(isHole: bool, size: nat, previous: Option<nat>)

  /** The bytes a run of nodes covers, headers included. */
  function Sum(nodes: seq<Node>): nat
    decreases |nodes|
  {
    if |nodes| == 0 then 0 else H + nodes[0].size + Sum(nodes[1..])
  }

  /** The offset of node i's header from the start of the run. */
  function Offset(nodes: seq<Node>, i: nat): nat
    requires i <= |nodes|
  {
    Sum(nodes[..i])
  }

  /** The run with its first back-link pointed at `target`. */
  function Relink(nodes: seq<Node>, target: nat): (r: seq<Node>)
    ensures |r| == |nodes|
    ensures |r| > 0 ==> r[0] == nodes[0].(previous := Some(target)) && r[1..] == nodes[1..]
  {
    if |nodes| == 0 then nodes else [nodes[0].(previous := Some(target))] + nodes[1..]
  }

  /** Every back-link names the header just before it: the first node's names `prev`,
      and the run starts at offset `base`. */
  predicate LinkedFrom(nodes: seq<Node>, prev: Option<nat>, base: nat)
    decreases |nodes|
  {
    |nodes| == 0 || (nodes[0].previous == prev && LinkedFrom(nodes[1..], Some(base), base + H + nodes[0].size))
  }

  /** The back-link a node placed after the run would need. */
  function LastLink(nodes: seq<Node>, prev: Option<nat>, base: nat): Option<nat>
  {
    if |nodes| == 0 then prev else Some(base + Offset(nodes, |nodes| - 1))
  }

  /** No two neighbouring nodes are both holes. */
  predicate Coalesced(nodes: seq<Node>)
    decreases |nodes|
  {
    |nodes| <= 1 || (!(nodes[0].isHole && nodes[1].isHole) && Coalesced(nodes[1..]))
  }

  /** The allocations a run holds: payload address to payload size of each used node,
      for a run whose first header is at address `base`. */
  function AllocationsFrom(nodes: seq<Node>, base: nat): map<nat, nat>
    decreases |nodes|
  {
    if |nodes| == 0 then map[]
    else
      var rest := AllocationsFrom(nodes[1..], base + H + nodes[0].size);
      if nodes[0].isHole then rest else rest[base + H := nodes[0].size]
  }

  // ---------------------------------------------------------------------------
  // Sums and offsets

  lemma {:induction false} SumConcat(a: seq<Node>, b: seq<Node>)
    ensures Sum(a + b) == Sum(a) + Sum(b)
    decreases |a|
  {
    if |a| == 0 {
      assert a + b == b;
    } else {
      assert (a + b)[1..] == a[1..] + b;
      SumConcat(a[1..], b);
    }
  }

  lemma SumThree(a: seq<Node>, b: seq<Node>, c: seq<Node>)
    ensures Sum(a + b + c) == Sum(a) + Sum(b) + Sum(c)
  {
    SumConcat(a + b, c);
    SumConcat(a, b);
  }

  lemma SumOne(x: Node)
    ensures Sum([x]) == H + x.size
  {
    assert [x][1..] == [];
  }

  lemma SumTwo(x: Node, y: Node)
    ensures Sum([x, y]) == H + x.size + H + y.size
  {
    assert [x, y][1..] == [y];
    SumOne(y);
  }

  lemma SumRelink(nodes: seq<Node>, target: nat)
    ensures Sum(Relink(nodes, target)) == Sum(nodes)
  {
    if |nodes| > 0 {
      assert Relink(nodes, target)[1..] == nodes[1..];
    }
  }

  /** Splitting a run at any index splits its byte count. */
  lemma SumSplit(nodes: seq<Node>, i: nat)
    requires i <= |nodes|
    ensures Sum(nodes) == Offset(nodes, i) + Sum(nodes[i..])
  {
    assert nodes == nodes[..i] + nodes[i..];
    SumConcat(nodes[..i], nodes[i..]);
  }

  /** The header after node i starts right where node i's payload ends. */
  lemma OffsetStep(nodes: seq<Node>, i: nat)
    requires i < |nodes|
    ensures Offset(nodes, i + 1) == Offset(nodes, i) + H + nodes[i].size
  {
    assert nodes[..i + 1] == nodes[..i] + [nodes[i]];
    SumConcat(nodes[..i], [nodes[i]]);
    SumOne(nodes[i]);
  }

  /** Every node lies inside the run. */
  lemma OffsetBound(nodes: seq<Node>, i: nat)
    requires i < |nodes|
    ensures Offset(nodes, i) + H + nodes[i].size <= Sum(nodes)
  {
    OffsetStep(nodes, i);
    SumSplit(nodes, i + 1);
  }

  /** Offsets strictly increase: node i ends at or before node j begins. */
  lemma {:induction false} OffsetMonotone(nodes: seq<Node>, i: nat, j: nat)
    requires i < j <= |nodes|
    ensures Offset(nodes, i) + H + nodes[i].size <= Offset(nodes, j)
    decreases j - i
  {
    OffsetStep(nodes, i);
    if i + 1 < j {
      OffsetMonotone(nodes, i + 1, j);
    }
  }

  /** Offsets inside a concatenation. */
  lemma OffsetConcat(a: seq<Node>, b: seq<Node>, j: nat)
    requires j <= |b|
    ensures Offset(a + b, |a| + j) == Sum(a) + Offset(b, j)
  {
    assert (a + b)[..|a| + j] == a + b[..j];
    SumConcat(a, b[..j]);
  }

  lemma OffsetPrefix(a: seq<Node>, b: seq<Node>, j: nat)
    requires j <= |a|
    ensures Offset(a + b, j) == Offset(a, j)
  {
    assert (a + b)[..j] == a[..j];
  }

  lemma OffsetTail(nodes: seq<Node>, k: nat)
    requires 0 < |nodes| && k < |nodes|
    ensures Offset(nodes, k + 1) == H + nodes[0].size + Offset(nodes[1..], k)
  {
    assert nodes[..k + 1] == [nodes[0]] + nodes[1..][..k];
    SumConcat([nodes[0]], nodes[1..][..k]);
    SumOne(nodes[0]);
  }

  // ---------------------------------------------------------------------------
  // Back-links

  lemma {:induction false} LinkedConcat(a: seq<Node>, b: seq<Node>, prev: Option<nat>, base: nat)
    ensures LinkedFrom(a + b, prev, base) <==>
              LinkedFrom(a, prev, base) && LinkedFrom(b, LastLink(a, prev, base), base + Sum(a))
    decreases |a|
  {
    if |a| == 0 {
      assert a + b == b;
    } else {
      assert (a + b)[0] == a[0];
      assert (a + b)[1..] == a[1..] + b;
      var base' := base + H + a[0].size;
      LinkedConcat(a[1..], b, Some(base), base');
      if |a| == 1 {
        assert Offset(a, 0) == 0 by { assert a[..0] == []; }
      } else {
        OffsetTail(a, |a| - 2);
      }
    }
  }

  lemma LinkedThree(a: seq<Node>, w: seq<Node>, b: seq<Node>, prev: Option<nat>, base: nat)
    ensures LinkedFrom(a + w + b, prev, base) <==>
              && LinkedFrom(a, prev, base)
              && LinkedFrom(w, LastLink(a, prev, base), base + Sum(a))
              && LinkedFrom(b, LastLink(w, LastLink(a, prev, base), base + Sum(a)), base + Sum(a) + Sum(w))
  {
    LinkedConcat(a + w, b, prev, base);
    LinkedConcat(a, w, prev, base);
    SumConcat(a, w);
    if |w| == 0 {
      assert a + w == a;
    } else {
      OffsetConcat(a, w, |w| - 1);
    }
  }

  /** Re-pointing the head of a correctly linked run keeps it linked under a new predecessor. */
  lemma LinkedRelink(nodes: seq<Node>, prev: Option<nat>, target: nat, base: nat)
    requires LinkedFrom(nodes, prev, base)
    ensures LinkedFrom(Relink(nodes, target), Some(target), base)
  {
    if |nodes| > 0 {
      assert Relink(nodes, target)[1..] == nodes[1..];
    }
  }

  /** In a linked run, node i's back-link is the offset of node i - 1. */
  lemma {:induction false} LinkedPrevious(nodes: seq<Node>, base: nat, i: nat)
    requires LinkedFrom(nodes, None, base) && i < |nodes|
    ensures nodes[i].previous == if i == 0 then None else Some(base + Offset(nodes, i - 1))
  {
    assert nodes == nodes[..i] + nodes[i..];
    LinkedConcat(nodes[..i], nodes[i..], None, base);
    if i > 0 {
      OffsetPrefix(nodes[..i], nodes[i..], i - 1);
    }
  }

  lemma LinkedSingle(x: Node, prev: Option<nat>, base: nat)
    ensures LinkedFrom([x], prev, base) <==> x.previous == prev
  {
    assert [x][1..] == [];
  }

  // ---------------------------------------------------------------------------
  // Coalescing

  lemma {:induction false} CoalescedConcat(a: seq<Node>, b: seq<Node>)
    ensures Coalesced(a + b) <==>
              Coalesced(a) && Coalesced(b) && (|a| == 0 || |b| == 0 || !(a[|a| - 1].isHole && b[0].isHole))
    decreases |a|
  {
    if |a| == 0 {
      assert a + b == b;
    } else {
      assert (a + b)[1..] == a[1..] + b;
      CoalescedConcat(a[1..], b);
    }
  }

  /** Coalescing read at one index: a node and its successor are never both holes. */
  lemma {:induction false} CoalescedAt(nodes: seq<Node>, i: nat)
    requires Coalesced(nodes) && i + 1 < |nodes|
    ensures !(nodes[i].isHole && nodes[i + 1].isHole)
    decreases i
  {
    if i > 0 {
      CoalescedAt(nodes[1..], i - 1);
    }
  }

  /** A coalesced run whose every node is a hole has at most one node. */
  lemma AllHolesCoalesced(nodes: seq<Node>)
    requires Coalesced(nodes)
    requires forall k :: 0 <= k < |nodes| ==> nodes[k].isHole
    ensures |nodes| <= 1
  {
  }

  // ---------------------------------------------------------------------------
  // Allocations

  /** Every allocation lies inside the run, after its own header. */
  lemma {:induction false} AllocationsBounds(nodes: seq<Node>, base: nat)
    ensures forall q :: q in AllocationsFrom(nodes, base) ==>
              base + H <= q && q + AllocationsFrom(nodes, base)[q] <= base + Sum(nodes)
    decreases |nodes|
  {
    if |nodes| > 0 {
      AllocationsBounds(nodes[1..], base + H + nodes[0].size);
    }
  }

  lemma {:induction false} AllocationsConcat(a: seq<Node>, b: seq<Node>, base: nat)
    ensures AllocationsFrom(a + b, base) == AllocationsFrom(a, base) + AllocationsFrom(b, base + Sum(a))
    ensures AllocationsFrom(a, base).Keys !! AllocationsFrom(b, base + Sum(a)).Keys
    decreases |a|
  {
    AllocationsBounds(a, base);
    AllocationsBounds(b, base + Sum(a));
    if |a| == 0 {
      assert a + b == b;
    } else {
      assert (a + b)[1..] == a[1..] + b;
      AllocationsConcat(a[1..], b, base + H + a[0].size);
    }
  }

  lemma AllocationsRelink(nodes: seq<Node>, target: nat, base: nat)
    ensures AllocationsFrom(Relink(nodes, target), base) == AllocationsFrom(nodes, base)
  {
    if |nodes| > 0 {
      assert Relink(nodes, target)[1..] == nodes[1..];
    }
  }

  /** Every node after the first has a non-empty payload. */
  predicate SizedAfterFirst(nodes: seq<Node>)
  {
    forall k :: 0 < k < |nodes| ==> nodes[k].size > 0
  }

  /** Replacing the middle of a run keeps SizedAfterFirst when the new middle has no
      empty payload past the run's start, and the tail keeps its sizes. */
  lemma SizedReplace(pre: seq<Node>, mid: seq<Node>, post: seq<Node>, mid': seq<Node>, post': seq<Node>)
    requires SizedAfterFirst(pre + mid + post) && |mid| > 0
    requires |pre| > 0 && |mid'| > 0 ==> mid'[0].size > 0
    requires forall k :: 0 < k < |mid'| ==> mid'[k].size > 0
    requires |post'| == |post| && forall k :: 0 <= k < |post| ==> post'[k].size == post[k].size
    ensures SizedAfterFirst(pre + mid' + post')
  {
    var xs := pre + mid + post;
    var ys := pre + mid' + post';
    forall k | 0 < k < |ys| ensures ys[k].size > 0 {
      if k < |pre| {
        assert ys[k] == xs[k];
      } else if k >= |pre| + |mid'| {
        assert ys[k] == post'[k - |pre| - |mid'|];
        assert xs[k - |mid'| + |mid|] == post[k - |pre| - |mid'|];
      } else {
        assert ys[k] == mid'[k - |pre|];
      }
    }
  }

  /** Relink keeps every size. */
  lemma RelinkSizes(nodes: seq<Node>, target: nat)
    ensures forall k :: 0 <= k < |nodes| ==> Relink(nodes, target)[k].size == nodes[k].size
  {
    var r := Relink(nodes, target);
    forall k | 0 <= k < |nodes| ensures r[k].size == nodes[k].size {
      if k > 0 {
        assert r[k] == r[1..][k - 1];
      }
    }
  }

  /** No allocation starts before the run's first payload or after its end. */
  lemma NotAllocated(nodes: seq<Node>, base: nat, q: nat)
    requires q < base + H || q > base + Sum(nodes)
    ensures q !in AllocationsFrom(nodes, base)
  {
    AllocationsBounds(nodes, base);
  }

  /** AllocationsConcat for a run in three pieces. */
  lemma AllocationsThree(a: seq<Node>, b: seq<Node>, c: seq<Node>, base: nat)
    ensures AllocationsFrom(a + b + c, base)
              == AllocationsFrom(a, base) + AllocationsFrom(b, base + Sum(a)) + AllocationsFrom(c, base + Sum(a) + Sum(b))
  {
    AllocationsConcat(a + b, c, base);
    AllocationsConcat(a, b, base);
    SumConcat(a, b);
  }

  lemma AllocationsSingle(x: Node, base: nat)
    ensures AllocationsFrom([x], base) == if x.isHole then map[] else map[base + H := x.size]
  {
    assert [x][1..] == [];
  }

  /** A used node at index i is the allocation at its payload address. */
  lemma AllocationsAt(nodes: seq<Node>, base: nat, i: nat)
    requires i < |nodes| && !nodes[i].isHole
    ensures base + Offset(nodes, i) + H in AllocationsFrom(nodes, base)
    ensures AllocationsFrom(nodes, base)[base + Offset(nodes, i) + H] == nodes[i].size
  {
    assert nodes == nodes[..i] + ([nodes[i]] + nodes[i + 1..]);
    AllocationsConcat(nodes[..i], [nodes[i]] + nodes[i + 1..], base);
    AllocationsConcat([nodes[i]], nodes[i + 1..], base + Offset(nodes, i));
    AllocationsSingle(nodes[i], base + Offset(nodes, i));
  }

  /** Every allocation is the payload of some used node. */
  lemma {:induction false} AllocationsWitness(nodes: seq<Node>, base: nat, q: nat) returns (i: nat)
    requires q in AllocationsFrom(nodes, base)
    ensures i < |nodes| && !nodes[i].isHole && base + Offset(nodes, i) + H == q
    decreases |nodes|
  {
    var rest := AllocationsFrom(nodes[1..], base + H + nodes[0].size);
    if !nodes[0].isHole && q == base + H {
      i := 0;
      assert nodes[..0] == [];
    } else {
      var k := AllocationsWitness(nodes[1..], base + H + nodes[0].size, q);
      i := k + 1;
      OffsetTail(nodes, k);
    }
  }

  /** A run with no used node holds no allocation, and conversely. */
  lemma {:induction false} AllocationsEmpty(nodes: seq<Node>, base: nat)
    ensures AllocationsFrom(nodes, base) == map[] <==> forall k :: 0 <= k < |nodes| ==> nodes[k].isHole
    decreases |nodes|
  {
    if |nodes| > 0 {
      AllocationsEmpty(nodes[1..], base + H + nodes[0].size);
      if !nodes[0].isHole {
        assert base + H in AllocationsFrom(nodes, base);
      }
      if forall k :: 0 <= k < |nodes| ==> nodes[k].isHole {
        assert forall k :: 0 <= k < |nodes[1..]| ==> nodes[1..][k].isHole by {
          forall k | 0 <= k < |nodes[1..]| ensures nodes[1..][k].isHole {
            assert nodes[1..][k] == nodes[k + 1];
          }
        }
      } else {
        var k :| 0 <= k < |nodes| && !nodes[k].isHole;
        if k > 0 {
          assert nodes[1..][k - 1] == nodes[k];
        }
      }
    }
  }

  /** Allocations never overlap: each one ends at least a header before the next begins. */
  lemma {:induction false} AllocationsSeparated(nodes: seq<Node>, base: nat)
    ensures forall q1, q2 :: q1 in AllocationsFrom(nodes, base) && q2 in AllocationsFrom(nodes, base) && q1 < q2 ==>
              q1 + AllocationsFrom(nodes, base)[q1] + H <= q2
    decreases |nodes|
  {
    if |nodes| > 0 {
      AllocationsSeparated(nodes[1..], base + H + nodes[0].size);
      AllocationsBounds(nodes[1..], base + H + nodes[0].size);
    }
  }

  /** A linked, coalesced run is determined by its extent and its allocations (headers
      counted from `base`, allocations from address `at`): the gap
      before, between and after the allocations is either empty or exactly one hole. */
  lemma {:induction false} LayoutDetermined(xs: seq<Node>, ys: seq<Node>, prev: Option<nat>, base: nat, at: nat)
    requires LinkedFrom(xs, prev, base) && LinkedFrom(ys, prev, base)
    requires Coalesced(xs) && Coalesced(ys)
    requires Sum(xs) == Sum(ys)
    requires AllocationsFrom(xs, at) == AllocationsFrom(ys, at)
    ensures xs == ys
    decreases |xs|
  {
    if |xs| == 0 && |ys| == 0 {
    } else if |xs| == 0 || |ys| == 0 {
      // A non-empty run spans at least one header.
      assert false;
    } else {
      var x, y := xs[0], ys[0];
      var m := AllocationsFrom(xs, at);
      var xb, yb := at + H + x.size, at + H + y.size;
      AllocationsBounds(xs[1..], xb);
      AllocationsBounds(ys[1..], yb);
      if !x.isHole || !y.isHole {
        assert at + H in m;
        assert !x.isHole && !y.isHole && x.size == m[at + H] == y.size;
        assert AllocationsFrom(xs[1..], xb) == m - {at + H};
        assert AllocationsFrom(ys[1..], yb) == m - {at + H};
      } else {
        if |xs| > 1 {
          CoalescedAt(xs, 0);
          assert xb + H in AllocationsFrom(xs[1..], xb);
        }
        if |ys| > 1 {
          CoalescedAt(ys, 0);
          assert yb + H in AllocationsFrom(ys[1..], yb);
        }
        if |xs| == 1 && |ys| == 1 {
          assert Sum(xs) == H + x.size && Sum(ys) == H + y.size;
        } else if |xs| == 1 {
          AllocationsEmpty(xs, at);
          assert false;
        } else if |ys| == 1 {
          AllocationsEmpty(ys, at);
          assert false;
        } else {
          assert xb + H in m && yb + H in m;
        }
      }
      assert x == y;
      LayoutDetermined(xs[1..], ys[1..], Some(base), base + H + x.size, xb);
      assert xs == [x] + xs[1..] && ys == [y] + ys[1..];
    }
  }

  /** Inserting a fresh key between two disjoint maps. */
  lemma MapInsert(lo: map<nat, nat>, hi: map<nat, nat>, k: nat, v: nat)
    requires k !in lo && k !in hi
    ensures lo + map[k := v] + hi == (lo + hi)[k := v]
    ensures k !in lo + hi
  {
  }

  /** Removing a key that sits between two disjoint maps. */
  lemma MapRemove(lo: map<nat, nat>, hi: map<nat, nat>, k: nat, v: nat)
    requires k !in lo && k !in hi
    ensures (lo + map[k := v] + hi) - {k} == lo + hi
  {
  }

  /** Removing a key the left map lacks commutes with the union. */
  lemma MapRemoveRight(lo: map<nat, nat>, hi: map<nat, nat>, k: nat)
    requires k !in lo
    ensures lo + (hi - {k}) == (lo + hi) - {k}
  {
  }

  /** Adding a fresh key and removing it again gives back the map. */
  lemma MapUndo(m: map<nat, nat>, k: nat, v: nat)
    requires k !in m
    ensures m[k := v] - {k} == m
  {
  }
}
