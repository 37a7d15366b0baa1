/**
 * The allocator capability shared by every variant: a synchronized flag and one
 * four-case resize function. allocate, deallocate and reallocate are three ways of
 * calling that one function.
 */
module Allocator {
  import opened Wrappers

  /** size_t is taken to be 64 bits wide. */
  const SIZE_T_MODULUS: nat := 0x1_0000_0000_0000_0000
  const SIZE_MAX: nat := SIZE_T_MODULUS - 1

  type Positive = x: nat | x > 0 witness 1

  /** A C pointer: None is NULL, Some(a) is the address a. */
  type Ptr = Option<nat>

  /** The callbacks an allocator's resize pointer can hold; compared by identity. */
  datatype ResizeFn = FirstFitResize | ArenaResize | SynchronizedResize | Foreign(id: nat)

  /** allocator_t: whether the handle is already thread safe, and its resize callback. */
  datatype Capability = Capability(synchronized: bool, resize: ResizeFn)

  /** The four meanings of one resize(memory, size) call. */
  datatype Request =
    | NoOp
    | AllocReq(size: nat)
    | FreeReq(addr: nat)
    | ResizeReq(addr: nat, size: nat)

  /** A request is well formed when it is the meaning of some argument pair. */
  predicate WellFormed(q: Request)
  {
    match q
    case NoOp => true
    case AllocReq(n) => n > 0
    case FreeReq(_) => true
    case ResizeReq(_, n) => n > 0
  }

  /** The four-case contract: (NULL, 0) does nothing, (NULL, n) allocates,
      (p, 0) frees and (p, n) resizes. */
  function Classify(memory: Ptr, size: nat): (q: Request)
    ensures WellFormed(q)
    ensures q.NoOp? <==> memory.None? && size == 0
    ensures q.AllocReq? <==> memory.None? && size > 0
    ensures q.FreeReq? <==> memory.Some? && size == 0
    ensures q.ResizeReq? <==> memory.Some? && size > 0
  {
    match memory
    case None => if size == 0 then NoOp else AllocReq(size)
    case Some(p) => if size == 0 then FreeReq(p) else ResizeReq(p, size)
  }

  /** The arguments of the resize call that carries a request. */
  function Arguments(q: Request): (Ptr, nat)
  {
    match q
    case NoOp => (None, 0)
    case AllocReq(n) => (None, n)
    case FreeReq(p) => (Some(p), 0)
    case ResizeReq(p, n) => (Some(p), n)
  }

  /** The four cases are exhaustive and exclusive: no argument pair is lost and no
      well-formed request is reached twice. */
  lemma ClassifyRoundTrip(memory: Ptr, size: nat, q: Request)
    ensures Arguments(Classify(memory, size)) == (memory, size)
    ensures WellFormed(q) ==> Classify(Arguments(q).0, Arguments(q).1) == q
  {
  }

  /** The result of one resize call on a variant whose state is S. */
  datatype Step<S> = Step(state: S, result: Ptr)

  /** A memcpy of len bytes from src to dst, the payload transfer of a growing resize. */
  datatype Copy = Copy(src: nat, dst: Ptr, len: nat)

  /** allocate(a, size): the resize call with no memory. */
  function Allocate<S>(resize: (S, Ptr, nat) -> Step<S>, s: S, size: nat): Step<S>
  {
    resize(s, None, size)
  }

  /** deallocate(a, p): the resize call with size 0, result discarded. destroy and
      destroy_array expand to this call. */
  function Deallocate<S>(resize: (S, Ptr, nat) -> Step<S>, s: S, memory: nat): S
  {
    resize(s, Some(memory), 0).state
  }

  /** reallocate(a, p, size): the resize call, arguments and result passed through. */
  function Reallocate<S>(resize: (S, Ptr, nat) -> Step<S>, s: S, memory: Ptr, size: nat): Step<S>
  {
    resize(s, memory, size)
  }

  /** A resize function that performs nothing and only records the request it receives. */
  function Recorder(log: seq<Request>, memory: Ptr, size: nat): Step<seq<Request>>
  {
    Step(log + [Classify(memory, size)], None)
  }

  /** Each entry point issues exactly one resize call, carrying the request its name says. */
  lemma EntryPointRequests(size: nat, p: nat, memory: Ptr)
    ensures Allocate(Recorder, [], size).state == [if size == 0 then NoOp else AllocReq(size)]
    ensures Deallocate(Recorder, [], p) == [FreeReq(p)]
    ensures Reallocate(Recorder, [], memory, size).state == [Classify(memory, size)]
  {
  }

  /** A variant is fully determined by its resize function: two variants whose resize
      functions agree in a state agree on every entry point in that state. */
  lemma VariantDeterminedByResize<S>(f: (S, Ptr, nat) -> Step<S>, g: (S, Ptr, nat) -> Step<S>, s: S,
                                     memory: Ptr, p: nat, size: nat)
    requires forall m: Ptr, n: nat :: f(s, m, n) == g(s, m, n)
    ensures Allocate(f, s, size) == Allocate(g, s, size)
    ensures Deallocate(f, s, p) == Deallocate(g, s, p)
    ensures Reallocate(f, s, memory, size) == Reallocate(g, s, memory, size)
  {
  }

  /** create(a, T): the request for sizeof(T) bytes. */
  function CreateRequest(typeSize: Positive): (q: Request)
    ensures q == AllocReq(typeSize)
  {
    Classify(None, typeSize)
  }

  /** create_array(a, T, n) as written: sizeof(T) * n computed in size_t, so the
      product wraps modulo 2^64. */
  function CreateArrayRequestAsWritten(typeSize: Positive, count: nat): Request
  {
    Classify(None, (typeSize * count) % SIZE_T_MODULUS)
  }

  /** With sizeof(T) == 8 and n == 2^61 + 1 the wrapped request asks for 8 bytes, far
      fewer than the array needs. */
  lemma CreateArrayWraps()
    ensures CreateArrayRequestAsWritten(8, 0x2000_0000_0000_0001) == AllocReq(8)
    ensures 8 * 0x2000_0000_0000_0001 > SIZE_MAX
  {
  }

  /** create_array with the product checked: an array too large for size_t is refused
      (NULL, with no request issued) instead of being under-allocated. */
  function CreateArrayRequest(typeSize: Positive, count: nat): (q: Option<Request>)
    ensures q.Some? <==> typeSize * count <= SIZE_MAX
    ensures q.Some? ==> q.value == Classify(None, typeSize * count)
    ensures q.Some? && count > 0 ==> q.value.AllocReq? && q.value.size >= typeSize * count
  {
    if typeSize * count > SIZE_MAX then None else Some(Classify(None, typeSize * count))
  }

  /** Whenever the product fits, the checked request agrees with the one as written. */
  lemma CreateArrayAgreesWhenNoOverflow(typeSize: Positive, count: nat)
    requires typeSize * count <= SIZE_MAX
    ensures CreateArrayRequest(typeSize, count) == Some(CreateArrayRequestAsWritten(typeSize, count))
  {
  }
}
