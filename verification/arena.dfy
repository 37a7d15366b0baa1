/**
 * The arena allocator: a head-first chain of blocks obtained from a backing allocator,
 * each a node header {tail, size} followed by its payload. Blocks are only ever added;
 * individual frees do nothing and destroy hands every block back at once.
 *
 * The backing allocator is an oracle: each call's answer (NULL or an address) is a
 * parameter, and the requests made to it are part of each result.
 */
module Arena {
  import opened Wrappers
  import opened Allocator

  /** sizeof(node_t) of the arena: a tail pointer and a size, only known to be positive. */
  const NA: Positive

  /** sizeof(arena_allocator_t): the record create asks the backing allocator for. */
  const RECORD: Positive

  /** A block of the chain: its header address and the size recorded in it. Its payload
      starts right after the header. */
  datatype Chunk = Chunk(node: nat, size: nat)

  function PayloadOf(c: Chunk): nat
  {
    c.node + NA
  }

  /** arena_allocator_t: its own capability and address, the backing allocator's
      capability, and the chain from the head. */
  datatype Arena = Arena(cap: Capability, self: nat, backing: Capability, chain: seq<Chunk>)

  /** What one call does: the new state, the returned pointer, the requests made to the
      backing allocator, and the payload copy, if any. */
  datatype Outcome = Outcome(state: Arena, result: Ptr, calls: seq<Request>, copy: Option<Copy>)

  /** arena_allocator_create: NULL without a backing allocator or when the backing
      allocator cannot provide the record; otherwise an arena with an empty chain, not
      flagged synchronized. */
  function Create(backing: Option<Capability>, grant: Ptr): (r: (Option<Arena>, seq<Request>))
    ensures backing.None? ==> r == (None, [])
    ensures backing.Some? ==> r.1 == [AllocReq(RECORD)]
    ensures r.0.Some? <==> backing.Some? && grant.Some?
    ensures r.0.Some? ==>
              && r.0.value.chain == [] && r.0.value.self == grant.value
              && r.0.value.cap == Capability(false, ArenaResize) && r.0.value.backing == backing.value
  {
    match backing
    case None => (None, [])
    case Some(b) =>
      var request := CreateRequest(RECORD);
      match grant
      case None => (None, [request])
      case Some(addr) => (Some(Arena(Capability(false, ArenaResize), addr, b, [])), [request])
  }

  /** find_node: the first chunk from the head whose payload starts at p. */
  function FindChunk(chain: seq<Chunk>, p: nat): (r: Option<nat>)
    ensures r.Some? ==> r.value < |chain| && PayloadOf(chain[r.value]) == p
    ensures r.Some? ==> forall k :: 0 <= k < r.value ==> PayloadOf(chain[k]) != p
    ensures r.None? <==> forall k :: 0 <= k < |chain| ==> PayloadOf(chain[k]) != p
  {
    if |chain| == 0 then None
    else if PayloadOf(chain[0]) == p then Some(0)
    else match FindChunk(chain[1..], p)
      case None => None
      case Some(k) => Some(k + 1)
  }

  /** The backing request for a block of n payload bytes: NA + n, refused outright when
      that sum does not fit in size_t. */
  function BlockRequest(n: nat): (q: Option<Request>)
    ensures q.Some? <==> NA + n <= SIZE_MAX
    ensures q.Some? ==> q.value == AllocReq(NA + n)
  {
    if NA + n > SIZE_MAX then None else Some(Classify(None, NA + n))
  }

  /** arena_allocator_allocate: one backing request for a header and n bytes; on success
      the new block becomes the head and its payload is returned, on failure nothing
      changes. */
  function AllocateChunk(a: Arena, n: nat, grant: Ptr): (o: Outcome)
    ensures o.state.cap == a.cap && o.state.self == a.self && o.state.backing == a.backing
    ensures o.copy.None?
    ensures o.result.None? ==> o.state == a
    ensures o.result.Some? <==> NA + n <= SIZE_MAX && grant.Some?
    ensures o.result.Some? ==>
              && o.state.chain == [Chunk(grant.value, n)] + a.chain
              && o.result.value == PayloadOf(o.state.chain[0])
    ensures o.calls == if NA + n <= SIZE_MAX then [AllocReq(NA + n)] else []
  {
    match BlockRequest(n)
    case None => Outcome(a, None, [], None)
    case Some(request) =>
      match grant
      case None => Outcome(a, None, [request], None)
      case Some(node) =>
        var c := Chunk(node, n);
        Outcome(a.(chain := [c] + a.chain), Some(PayloadOf(c)), [request], None)
  }

  /** arena_allocator_reallocate: an unknown p yields NULL; a block already recording n
      bytes or more is kept and p returned; otherwise a new block of n bytes is added at
      the head, the prior payload (its recorded size) is copied over, and the prior block
      stays in the chain. */
  function Reallocate(a: Arena, p: nat, n: nat, grant: Ptr): (o: Outcome)
    ensures o.state.cap == a.cap && o.state.self == a.self && o.state.backing == a.backing
    ensures FindChunk(a.chain, p).None? ==> o == Outcome(a, None, [], None)
    ensures FindChunk(a.chain, p).Some? && n <= a.chain[FindChunk(a.chain, p).value].size ==>
              o == Outcome(a, Some(p), [], None)
    ensures FindChunk(a.chain, p).Some? && n > a.chain[FindChunk(a.chain, p).value].size ==>
              var prior := a.chain[FindChunk(a.chain, p).value];
              && (o.result.None? ==> o.state == a && o.copy.None?)
              && (o.result.Some? <==> NA + n <= SIZE_MAX && grant.Some?)
              && (o.result.Some? ==>
                    && o.state.chain == [Chunk(grant.value, n)] + a.chain
                    && o.result.value == PayloadOf(o.state.chain[0])
                    && o.copy == Some(Copy(p, o.result, prior.size))
                    && prior.size < n)
  {
    match FindChunk(a.chain, p)
    case None => Outcome(a, None, [], None)
    case Some(i) =>
      var prior := a.chain[i];
      if n <= prior.size then Outcome(a, Some(p), [], None)
      else
        var g := AllocateChunk(a, n, grant);
        if g.result.None? then g
        else g.(copy := Some(Copy(p, g.result, prior.size)))
  }

  /** arena_allocator_reallocate_callback: the four-case resize function. */
  function Resize(a: Arena, memory: Ptr, size: nat, grant: Ptr): (o: Outcome)
    ensures o.state.cap == a.cap && o.state.self == a.self && o.state.backing == a.backing
    ensures size == 0 ==> o == Outcome(a, None, [], None)
    ensures o.result.None? ==> o.state == a
    ensures o.state.chain == a.chain || (|o.state.chain| == |a.chain| + 1 && o.state.chain[1..] == a.chain)
    ensures |o.calls| <= 1
    ensures o.copy.Some? ==> memory.Some? && o.copy.value.src == memory.value && o.copy.value.dst == o.result
  {
    match Classify(memory, size)
    case NoOp => Outcome(a, None, [], None)
    case AllocReq(n) => AllocateChunk(a, n, grant)
    case FreeReq(_) => Outcome(a, None, [], None)
    case ResizeReq(p, n) => Reallocate(a, p, n, grant)
  }

  /** The chain only grows at the head: whatever the call, the prior chain is a suffix of
      the new one and every payload found before is still found. */
  lemma ChainOnlyGrows(a: Arena, memory: Ptr, size: nat, grant: Ptr, q: nat)
    ensures var r := Resize(a, memory, size, grant).state;
            && IsSuffix(a.chain, r.chain)
            && (FindChunk(a.chain, q).Some? ==> FindChunk(r.chain, q).Some?)
  {
    var r := Resize(a, memory, size, grant).state;
    if r.chain != a.chain {
      assert r.chain == [r.chain[0]] + a.chain;
      if FindChunk(a.chain, q).Some? {
        var k := FindChunk(a.chain, q).value;
        assert PayloadOf(r.chain[k + 1]) == q;
      }
    }
  }

  /** A run of calls to the resize function, each with its oracle answer: the arena only
      ever gains blocks at the head, so the starting chain stays a suffix. */
  function Run(a: Arena, calls: seq<(Ptr, nat, Ptr)>): (r: Arena)
    ensures IsSuffix(a.chain, r.chain)
    ensures r.cap == a.cap && r.self == a.self && r.backing == a.backing
    decreases |calls|
  {
    if |calls| == 0 then a
    else
      var s := Resize(a, calls[0].0, calls[0].1, calls[0].2).state;
      ChainOnlyGrows(a, calls[0].0, calls[0].1, calls[0].2, 0);
      var r := Run(s, calls[1..]);
      SuffixTransitive(a.chain, s.chain, r.chain);
      r
  }

  predicate IsSuffix(xs: seq<Chunk>, ys: seq<Chunk>)
  {
    |xs| <= |ys| && ys[|ys| - |xs|..] == xs
  }

  lemma SuffixTransitive(xs: seq<Chunk>, ys: seq<Chunk>, zs: seq<Chunk>)
    requires IsSuffix(xs, ys) && IsSuffix(ys, zs)
    ensures IsSuffix(xs, zs)
  {
    assert zs[|zs| - |xs|..] == zs[|zs| - |ys|..][|ys| - |xs|..];
  }

  /** The requests destroy makes, in order: one free per block from the head, then one
      for the arena record. */
  function DestroyRequests(chain: seq<Chunk>, self: nat): (qs: seq<Request>)
    ensures |qs| == |chain| + 1
    ensures forall k :: 0 <= k < |chain| ==> qs[k] == FreeReq(chain[k].node)
    ensures qs[|chain|] == FreeReq(self)
  {
    if |chain| == 0 then [FreeReq(self)]
    else [FreeReq(chain[0].node)] + DestroyRequests(chain[1..], self)
  }

  /** arena_allocator_destroy: walk the chain from the head, reading each tail before
      handing its block back, then hand back the arena record. */
  method Destroy(a: Arena) returns (calls: seq<Request>)
    ensures calls == DestroyRequests(a.chain, a.self)
  {
    calls := [];
    var rest := a.chain;
    while |rest| > 0
      invariant |calls| + |rest| == |a.chain|
      invariant rest == a.chain[|calls|..]
      invariant forall k :: 0 <= k < |calls| ==> calls[k] == FreeReq(a.chain[k].node)
    {
      var next := rest[1..];
      calls := calls + [FreeReq(rest[0].node)];
      rest := next;
    }
    calls := calls + [FreeReq(a.self)];
    DestroyRequestsUnique(a.chain, a.self, calls);
  }

  /** Any request list shaped like destroy's is destroy's. */
  lemma DestroyRequestsUnique(chain: seq<Chunk>, self: nat, qs: seq<Request>)
    requires |qs| == |chain| + 1 && qs[|chain|] == FreeReq(self)
    requires forall k :: 0 <= k < |chain| ==> qs[k] == FreeReq(chain[k].node)
    ensures qs == DestroyRequests(chain, self)
  {
  }

  /** Destroy undoes create: whatever calls the arena served in between, destroy's last
      request frees exactly the record create obtained, and with no calls in between that
      is its only request. */
  lemma CreateThenDestroy(backing: Option<Capability>, grant: Ptr, calls: seq<(Ptr, nat, Ptr)>)
    requires Create(backing, grant).0.Some?
    ensures Create(backing, grant).1 == [AllocReq(RECORD)]
    ensures var arena := Create(backing, grant).0.value;
            var qs := DestroyRequests(Run(arena, calls).chain, arena.self);
            && qs[|qs| - 1] == FreeReq(grant.value)
            && (calls == [] ==> qs == [FreeReq(grant.value)])
  {
    var arena := Create(backing, grant).0.value;
    var r := Run(arena, calls);
    var qs := DestroyRequests(r.chain, arena.self);
    assert qs[|r.chain|] == FreeReq(arena.self);
    if calls == [] {
      assert r.chain == [];
    }
  }

  // ---------------------------------------------------------------------------
  // The code as written

  /** The memcpy length at arena_allocator_reallocate as written: it reads the size field
      of the freshly obtained block before that field is set, so the length depends on
      whatever the backing allocator left there (`junk`). */
  function CopyLengthAsWritten(junk: nat, n: nat): (len: nat)
    ensures len <= n && len <= junk
    ensures len == junk || len == n
  {
    if junk < n then junk else n
  }

  /** Depending on the leftover bytes, the copy either drops part of the prior payload or
      reads past its end; the corrected Reallocate copies exactly the prior payload. */
  lemma CopyLengthWrong(a: Arena, p: nat, n: nat, grant: Ptr, junk: nat)
    requires FindChunk(a.chain, p).Some? && n > a.chain[FindChunk(a.chain, p).value].size
    requires NA + n <= SIZE_MAX && grant.Some?
    ensures var prior := a.chain[FindChunk(a.chain, p).value];
            && (junk < prior.size ==> CopyLengthAsWritten(junk, n) < prior.size)
            && (junk >= n ==> CopyLengthAsWritten(junk, n) == n > prior.size)
            && Reallocate(a, p, n, grant).copy.value.len == prior.size
  {
  }

  /** sizeof(node_t) + size as written: computed in size_t, so a request near SIZE_MAX
      wraps to a tiny allocation whose header then records the huge size. */
  function BlockRequestAsWritten(n: nat): Request
  {
    Classify(None, (NA + n) % SIZE_T_MODULUS)
  }

  /** Asking for SIZE_MAX bytes makes the backing request NA - 1 bytes; the corrected
      BlockRequest refuses. */
  lemma BlockRequestWraps()
    ensures NA < SIZE_T_MODULUS ==> BlockRequestAsWritten(SIZE_MAX) == Classify(None, NA - 1)
    ensures BlockRequest(SIZE_MAX).None?
  {
  }
}
