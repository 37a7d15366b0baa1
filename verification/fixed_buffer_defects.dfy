/**
 * The fixed buffer allocator's reserve, release and resize steps as the code is written,
 * next to the corrected versions in FixedBuffer. Each lemma names the inputs on which the
 * two part ways and what goes wrong there.
 *
 * A node sequence here lists the headers the code writes, in address order; when the
 * code writes a header over another one the sequence no longer tiles the buffer, which
 * is how the damage shows.
 */
module FixedBufferDefects {
  import opened Wrappers
  import opened Allocator
  import opened Layout
  import opened FixedBuffer

  // ---------------------------------------------------------------------------
  // node_reserve

  /** node_reserve's remaining_size: hole - n - H computed in size_t, so it wraps modulo
      2^64 whenever the hole exceeds the request by less than one header. */
  function SplitRemainderAsWritten(hole: nat, n: nat): (r: nat)
    ensures r < SIZE_T_MODULUS
    ensures hole >= n + H && hole - n - H < SIZE_T_MODULUS ==> r == hole - n - H
    ensures hole < n + H && n + H - hole < SIZE_T_MODULUS ==> r == SIZE_T_MODULUS - (n + H - hole)
  {
    var d := hole - n - H;
    assert 0 < d + SIZE_T_MODULUS && d < 0 ==> d % SIZE_T_MODULUS == d + SIZE_T_MODULUS by {
      if 0 < d + SIZE_T_MODULUS && d < 0 {
        assert d == -1 * SIZE_T_MODULUS + (d + SIZE_T_MODULUS);
      }
    }
    d % SIZE_T_MODULUS
  }

  /** node_reserve as written, on node i of a valid allocator. It splits whenever the
      wrapped remainder is non-zero; the split header takes node_next of the reserved node
      (which is the split itself) as its back-link, and the old successor keeps pointing
      at the reserved node. */
  function ReserveAsWritten(a: FixedBufferAllocator, i: nat, n: nat): (nodes: seq<Node>)
    requires Valid(a) && i < |a.nodes| && a.nodes[i].isHole && 0 < n <= a.nodes[i].size
    ensures |nodes| >= |a.nodes|
  {
    var x := a.nodes[i];
    var o := Offset(a.nodes, i);
    var remaining := SplitRemainderAsWritten(x.size, n);
    if remaining > 0 then
      var split := o + H + n;
      // node_next(allocator, node) once node->size == n: the split header, if in bounds.
      var next := if split >= a.size - H then None else Some(split);
      var splitPrevious := if next.Some? then Some(split) else Some(o);
      a.nodes[..i] + [Node(false, n, x.previous), Node(true, remaining, splitPrevious)] + a.nodes[i + 1..]
    else
      a.nodes[..i] + [x.(isHole := false)] + a.nodes[i + 1..]
  }

  /** When the hole holds the request but less than one header more (an exact fit is
      the common case), the remainder wraps to nearly 2^64 and the recorded split runs
      far past the end of the buffer. The corrected Reserve uses the whole hole. */
  lemma ReserveWrapBreaksTiling(a: FixedBufferAllocator, i: nat, n: nat)
    requires Valid(a) && i < |a.nodes| && a.nodes[i].isHole && 0 < n <= a.nodes[i].size < n + H
    ensures SplitRemainderAsWritten(a.nodes[i].size, n) >= SIZE_T_MODULUS - H
    ensures Sum(ReserveAsWritten(a, i, n)) > a.size
    ensures !Tiled(a.(nodes := ReserveAsWritten(a, i, n)))
    ensures |Reserve(a, i, n).nodes| == |a.nodes| && Reserve(a, i, n).nodes[i].size == a.nodes[i].size
  {
    var x := a.nodes[i];
    var remaining := SplitRemainderAsWritten(x.size, n);
    var pre, post := a.nodes[..i], a.nodes[i + 1..];
    assert a.nodes == pre + [x] + post;
    assert remaining >= SIZE_T_MODULUS - H;
    var split := Node(true, remaining, if Offset(a.nodes, i) + H + n >= a.size - H then None else Some(Offset(a.nodes, i) + H + n));
    var y := Node(false, n, x.previous);
    var w := ReserveAsWritten(a, i, n);
    assert w == pre + [y, w[i + 1]] + post;
    SumThree(pre, [x], post);
    SumThree(pre, [y, w[i + 1]], post);
    SumOne(x);
    SumTwo(y, w[i + 1]);
  }

  /** Every split breaks the back-links: the new hole links to itself rather than to the
      reserved node. The corrected Reserve keeps the list linked (its Valid result). */
  lemma ReserveSplitBreaksLinks(a: FixedBufferAllocator, i: nat, n: nat)
    requires Valid(a) && i < |a.nodes| && a.nodes[i].isHole && 0 < n && n + H < a.nodes[i].size
    ensures !LinkedFrom(ReserveAsWritten(a, i, n), None, 0)
    ensures LinkedFrom(Reserve(a, i, n).nodes, None, 0)
  {
    var x := a.nodes[i];
    var o := Offset(a.nodes, i);
    var w := ReserveAsWritten(a, i, n);
    var pre := a.nodes[..i];
    OffsetBound(a.nodes, i);
    assert SplitRemainderAsWritten(x.size, n) == x.size - n - H;
    assert o + H + x.size <= a.size by {
      OffsetBound(a.nodes, i);
    }
    assert w[i + 1].previous == Some(o + H + n);
    assert w[..i] == pre && w[i].size == n;
    assert Offset(w, i) == o by {
      assert w[..i] == a.nodes[..i];
    }
    if LinkedFrom(w, None, 0) {
      LinkedPrevious(w, 0, i + 1);
      assert false;
    }
  }

  // ---------------------------------------------------------------------------
  // node_release

  /** node_release as written, on used node i of a valid allocator: the successor of the
      merged hole is re-pointed only when a following hole is absorbed. */
  function ReleaseAsWritten(a: FixedBufferAllocator, i: nat): seq<Node>
    requires Valid(a) && i < |a.nodes| && !a.nodes[i].isHole
  {
    var x := a.nodes[i];
    LinkedPrevious(a.nodes, 0, i);
    var backward := x.previous.Some? && a.nodes[i - 1].isHole;
    var lo := if backward then i - 1 else i;
    var size1 := if backward then a.nodes[i - 1].size + x.size + H else x.size;
    var forward := NodeNext(a, i).Some? && a.nodes[i + 1].isHole;
    var size2 := if forward then size1 + a.nodes[i + 1].size + H else size1;
    var merged := Node(true, size2, a.nodes[lo].previous);
    if forward then a.nodes[..lo] + [merged] + Relink(a.nodes[i + 2..], Offset(a.nodes, lo))
    else a.nodes[..lo] + [merged] + a.nodes[i + 1..]
  }

  /** Outside a backward-only merge with a successor, the code as written and the
      corrected release agree. */
  lemma ReleaseAsWrittenAgrees(a: FixedBufferAllocator, i: nat)
    requires Valid(a) && i < |a.nodes| && !a.nodes[i].isHole
    requires !(i > 0 && a.nodes[i - 1].isHole && i + 1 < |a.nodes| && !a.nodes[i + 1].isHole)
    ensures ReleaseAsWritten(a, i) == Release(a, i).nodes
  {
    LinkedPrevious(a.nodes, 0, i);
    if !(i + 1 < |a.nodes| && a.nodes[i + 1].isHole) && i > 0 && a.nodes[i - 1].isHole {
      assert a.nodes[i + 1..] == [];
    } else if !(i + 1 < |a.nodes| && a.nodes[i + 1].isHole) {
      assert LinkedFrom(a.nodes, None, 0);
      if i + 1 < |a.nodes| {
        LinkedPrevious(a.nodes, 0, i + 1);
        var post := a.nodes[i + 1..];
        assert Relink(post, Offset(a.nodes, i)) == post by {
          assert post[0] == a.nodes[i + 1];
          assert Relink(post, Offset(a.nodes, i)) == [post[0]] + post[1..];
          assert post == [post[0]] + post[1..];
        }
      } else {
        assert a.nodes[i + 1..] == [];
      }
    }
  }

  /** Releasing a used node that follows a hole and precedes a used node leaves that
      used node's back-link pointing into the middle of the merged hole. */
  lemma StaleBackLink(a: FixedBufferAllocator, i: nat)
    requires Valid(a) && 0 < i && i + 1 < |a.nodes| && !a.nodes[i].isHole
    requires a.nodes[i - 1].isHole && !a.nodes[i + 1].isHole
    ensures ReleaseAsWritten(a, i)[i].previous == Some(Offset(a.nodes, i))
    ensures !LinkedFrom(ReleaseAsWritten(a, i), None, 0)
  {
    var w := ReleaseAsWritten(a, i);
    LinkedPrevious(a.nodes, 0, i);
    LinkedPrevious(a.nodes, 0, i + 1);
    assert w[i] == a.nodes[i + 1];
    assert w[..i - 1] == a.nodes[..i - 1];
    OffsetStep(a.nodes, i - 1);
    assert Offset(w, i - 1) < Offset(a.nodes, i);
    if LinkedFrom(w, None, 0) {
      LinkedPrevious(w, 0, i);
      assert false;
    }
  }

  // ---------------------------------------------------------------------------
  // first_fit_reallocate, (p, n) branch

  /** The (p, n) branch as written (with the corrected allocation step): a shrinking
      resize returns the node header, a failed allocation is still the target of the
      memcpy, and the old node is never released. */
  function ResizeAsWritten(a: FixedBufferAllocator, p: nat, n: Positive): (o: Outcome)
    requires Valid(a)
    ensures Valid(o.state)
  {
    match Find(a, p)
    case None => Outcome(a, None, None)
    case Some(i) =>
      if n <= a.nodes[i].size then Outcome(a, Some(a.buffer + Offset(a.nodes, i)), None)
      else
        var g := AllocateBlock(a, n);
        Outcome(g.state, g.result, Some(Copy(p, g.result, a.nodes[i].size)))
  }

  /** A shrinking resize hands back the header address, one header before the block, and
      not the block; the corrected ResizeBlock returns p. */
  lemma ShrinkReturnsHeader(a: FixedBufferAllocator, p: nat, n: Positive)
    requires Valid(a) && Find(a, p).Some? && n <= a.nodes[Find(a, p).value].size
    ensures ResizeAsWritten(a, p, n).result == Some(p - H) && p >= H
    ensures ResizeBlock(a, p, n).result == Some(p)
  {
  }

  /** A growing resize that finds no room copies the old payload to NULL; the corrected
      Move copies nothing and returns NULL. */
  lemma GrowCopiesToNull(a: FixedBufferAllocator, p: nat, n: Positive)
    requires Valid(a) && Find(a, p).Some? && n > a.nodes[Find(a, p).value].size
    requires forall j :: 0 <= j < |a.nodes| ==> !Fits(a.nodes[j], n)
    ensures ResizeAsWritten(a, p, n).copy == Some(Copy(p, None, a.nodes[Find(a, p).value].size))
    ensures ResizeBlock(a, p, n).copy.None? && ResizeBlock(a, p, n).result.None?
  {
  }

  /** A growing resize that succeeds leaves the old block allocated, so it can never be
      freed; the corrected Move releases it. */
  lemma GrowLeaksOldBlock(a: FixedBufferAllocator, p: nat, n: Positive)
    requires Valid(a) && p in Allocations(a) && n > Allocations(a)[p]
    requires exists j :: 0 <= j < |a.nodes| && Fits(a.nodes[j], n)
    ensures ResizeAsWritten(a, p, n).result.Some? && p in Allocations(ResizeAsWritten(a, p, n).state)
    ensures ResizeBlock(a, p, n).result.Some? && p !in Allocations(ResizeBlock(a, p, n).state)
  {
    FindAllocation(a, p);
  }
}
