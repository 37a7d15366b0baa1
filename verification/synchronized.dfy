/**
 * The synchronized decorator, run sequentially: a record holding the child allocator and
 * a semaphore with one permit, whose resize function takes the permit, forwards the call
 * to the child and gives the permit back. The semaphore is its count; blocking and
 * thread interleavings are not modelled. Each operation reports the actions it performs
 * on the semaphore and on the child allocator, in order.
 */
module Synchronized {
  import opened Wrappers
  import opened Allocator

  /** sizeof(synchronized_allocator_t): the record create asks the child for. */
  const RECORD: Positive

  /** An allocator_t*: its address and the capability stored there. */
  datatype Handle = Handle(addr: nat, cap: Capability)

  /** A counting semaphore. */
  datatype Semaphore = Semaphore(count: nat)

  /** synchronized_allocator_t: its own handle, the child's handle, and the mutex. */
  datatype Decorator = Decorator(self: Handle, child: Handle, mutex: Semaphore)

  /** An action the decorator performs. */
  datatype Action = ChildCall(request: Request) | SemInit(value: nat) | SemDeinit | Wait | Signal

  /** The result of create: the handle returned, the decorator record when one was made,
      and the actions performed. */
  datatype Created = Created(result: Option<Handle>, decorator: Option<Decorator>, actions: seq<Action>)

  /** synchronized_allocator_create. NULL stays NULL and an already synchronized child is
      returned as is, with no allocation. Otherwise the record is allocated through the
      child (`grant` is the child's answer) and its semaphore initialised with one permit
      (`semOk` says whether that succeeds; if not, the record is freed through the child). */
  function Create(child: Option<Handle>, grant: Ptr, semOk: bool): (c: Created)
    ensures child.None? ==> c == Created(None, None, [])
    ensures child.Some? && child.value.cap.synchronized ==> c == Created(child, None, [])
    ensures child.Some? && !child.value.cap.synchronized ==>
              && |c.actions| > 0 && c.actions[0] == ChildCall(AllocReq(RECORD))
              && (c.result.Some? <==> grant.Some? && semOk)
              && (grant.Some? && !semOk ==> c.actions == [ChildCall(AllocReq(RECORD)), SemInit(1), ChildCall(FreeReq(grant.value))])
              && (c.result.Some? ==>
                    && c.decorator == Some(Decorator(c.result.value, child.value, Semaphore(1)))
                    && c.result.value == Handle(grant.value, Capability(true, SynchronizedResize)))
    ensures c.result.Some? ==> c.result.value.cap.synchronized
  {
    match child
    case None => Created(None, None, [])
    case Some(h) =>
      if h.cap.synchronized then Created(child, None, [])
      else
        var allocate := ChildCall(CreateRequest(RECORD));
        match grant
        case None => Created(None, None, [allocate])
        case Some(addr) =>
          if !semOk then Created(None, None, [allocate, SemInit(1), ChildCall(FreeReq(addr))])
          else
            var self := Handle(addr, Capability(true, SynchronizedResize));
            Created(Some(self), Some(Decorator(self, h, Semaphore(1))), [allocate, SemInit(1)])
  }

  /** Wrapping twice is wrapping once: a successful create returns a synchronized handle,
      which a second create hands back untouched. */
  lemma WrapIdempotent(child: Option<Handle>, grant: Ptr, semOk: bool, grant2: Ptr, semOk2: bool)
    requires Create(child, grant, semOk).result.Some?
    ensures var h := Create(child, grant, semOk).result;
            Create(h, grant2, semOk2) == Created(h, None, [])
  {
  }

  /** sem_wait, sequentially: it takes a permit, so one must be available. */
  function Take(s: Semaphore): (r: Semaphore)
    requires s.count > 0
    ensures r.count + 1 == s.count
  {
    Semaphore(s.count - 1)
  }

  /** sem_signal: give a permit back. */
  function Give(s: Semaphore): (r: Semaphore)
    ensures r.count == s.count + 1
  {
    Semaphore(s.count + 1)
  }

  /** What one forwarded call produces: the child's step, the decorator afterwards, and
      the actions. */
  datatype Forwarded<S> = Forwarded(step: Step<S>, decorator: Decorator, actions: seq<Action>)

  /** synchronized_allocator_reallocate_callback, with the child's resize function `f` in
      child state `s`: wait, reallocate through the child, signal. The result is exactly
      the child's, and the permit count is restored. */
  function Forward<S>(d: Decorator, f: (S, Ptr, nat) -> Step<S>, s: S, memory: Ptr, size: nat): (r: Forwarded<S>)
    requires d.mutex.count > 0
    ensures r.step == Reallocate(f, s, memory, size)
    ensures r.decorator == d
    ensures r.actions == [Wait, ChildCall(Classify(memory, size)), Signal]
  {
    var held := d.(mutex := Take(d.mutex));
    var step := Reallocate(f, s, memory, size);
    var released := held.(mutex := Give(held.mutex));
    Forwarded(step, released, [Wait, ChildCall(Classify(memory, size)), Signal])
  }

  /** The child alone, on a sequence of calls: its final state and each result. */
  function ChildRun<S>(f: (S, Ptr, nat) -> Step<S>, s: S, calls: seq<(Ptr, nat)>): (S, seq<Ptr>)
    decreases |calls|
  {
    if |calls| == 0 then (s, [])
    else
      var step := Reallocate(f, s, calls[0].0, calls[0].1);
      var (last, results) := ChildRun(f, step.state, calls[1..]);
      (last, [step.result] + results)
  }

  /** The same calls through the decorator. */
  function DecoratedRun<S>(d: Decorator, f: (S, Ptr, nat) -> Step<S>, s: S, calls: seq<(Ptr, nat)>): (r: (S, seq<Ptr>, Decorator))
    requires d.mutex.count > 0
    ensures r.2.mutex.count > 0
    decreases |calls|
  {
    if |calls| == 0 then (s, [], d)
    else
      var fwd := Forward(d, f, s, calls[0].0, calls[0].1);
      var (last, results, d') := DecoratedRun(fwd.decorator, f, fwd.step.state, calls[1..]);
      (last, [fwd.step.result] + results, d')
  }

  /** The decorator is transparent: on any sequence of calls it reaches the child's state
      and returns the child's results, and its semaphore ends as it started. */
  lemma {:induction false} DecoratedRunIsChildRun<S>(d: Decorator, f: (S, Ptr, nat) -> Step<S>, s: S, calls: seq<(Ptr, nat)>)
    requires d.mutex.count > 0
    ensures var (last, results, d') := DecoratedRun(d, f, s, calls);
            (last, results) == ChildRun(f, s, calls) && d' == d
    decreases |calls|
  {
    if |calls| > 0 {
      var fwd := Forward(d, f, s, calls[0].0, calls[0].1);
      DecoratedRunIsChildRun(fwd.decorator, f, fwd.step.state, calls[1..]);
    }
  }

  /** What destroy does: the actions in order, the allocator that frees the record (None
      when nothing is freed), and the semaphore as it stands when it is deinitialised. */
  datatype Destroyed = Destroyed(actions: seq<Action>, freer: Option<Handle>, mutex: Semaphore)

  /** synchronized_allocator_destroy on handle h, whose record (when h is a decorator's)
      is d. A handle whose resize function is not the decorator's is left alone.
      Otherwise the mutex is taken and given back, so no call is in flight, then
      deinitialised with its permit restored, and the record is freed through the child. */
  function Destroy(h: Handle, d: Decorator): (r: Destroyed)
    requires h.cap.resize == SynchronizedResize ==> d.mutex.count > 0
    ensures h.cap.resize != SynchronizedResize ==> r.actions == [] && r.freer.None? && r.mutex == d.mutex
    ensures h.cap.resize == SynchronizedResize ==>
              && |r.actions| == 4 && r.actions[2] == SemDeinit && r.actions[3] == ChildCall(FreeReq(h.addr))
              && r.actions[..2] == [Wait, Signal]
              && r.freer == Some(d.child)
              && r.mutex == d.mutex
  {
    if h.cap.resize != SynchronizedResize then Destroyed([], None, d.mutex)
    else
      var restored := Give(Take(d.mutex));
      Destroyed([Wait, Signal, SemDeinit, ChildCall(Classify(Some(h.addr), 0))], Some(d.child), restored)
  }

  /** Destroy undoes create: a decorator made by create is destroyed by freeing, through
      the child it was created over, exactly the record create allocated from that child,
      and the semaphore create initialised is deinitialised holding its one permit. */
  lemma CreateThenDestroy(child: Option<Handle>, grant: Ptr, semOk: bool)
    requires Create(child, grant, semOk).decorator.Some?
    ensures var c := Create(child, grant, semOk);
            c.result.Some? && grant.Some? &&
            var r := Destroy(c.result.value, c.decorator.value);
            && c.actions == [ChildCall(AllocReq(RECORD)), SemInit(1)]
            && r.actions == [Wait, Signal, SemDeinit, ChildCall(FreeReq(grant.value))]
            && r.freer == child
            && r.mutex == Semaphore(1)
  {
  }

  /** Number of waits among some actions. */
  function Waits(actions: seq<Action>): nat
  {
    if |actions| == 0 then 0 else (if actions[0].Wait? then 1 else 0) + Waits(actions[1..])
  }

  /** Number of signals among some actions. */
  function Signals(actions: seq<Action>): nat
  {
    if |actions| == 0 then 0 else (if actions[0].Signal? then 1 else 0) + Signals(actions[1..])
  }

  /** Waits and signals of a concatenation add up. */
  lemma {:induction false} CountsConcat(xs: seq<Action>, ys: seq<Action>)
    ensures Waits(xs + ys) == Waits(xs) + Waits(ys)
    ensures Signals(xs + ys) == Signals(xs) + Signals(ys)
    decreases |xs|
  {
    if |xs| == 0 {
      assert xs + ys == ys;
    } else {
      assert (xs + ys)[1..] == xs[1..] + ys;
      CountsConcat(xs[1..], ys);
    }
  }

  /** Each action counted alone. */
  lemma CountsSingle(x: Action)
    ensures Waits([x]) == (if x.Wait? then 1 else 0)
    ensures Signals([x]) == (if x.Signal? then 1 else 0)
  {
    assert [x][1..] == [];
  }

  /** Every prefix of the actions holds at least as many waits as signals and at most one
      more: the permit is never given back unheld, and no two calls hold it at once. */
  predicate PrefixBalanced(actions: seq<Action>)
  {
    forall k :: 0 <= k <= |actions| ==> Signals(actions[..k]) <= Waits(actions[..k]) <= Signals(actions[..k]) + 1
  }

  /** A closed balanced stretch followed by a balanced one is balanced. */
  lemma PrefixBalancedConcat(xs: seq<Action>, ys: seq<Action>)
    requires PrefixBalanced(xs) && Waits(xs) == Signals(xs) && PrefixBalanced(ys)
    ensures PrefixBalanced(xs + ys)
  {
    forall k | 0 <= k <= |xs + ys|
      ensures Signals((xs + ys)[..k]) <= Waits((xs + ys)[..k]) <= Signals((xs + ys)[..k]) + 1
    {
      if k <= |xs| {
        assert (xs + ys)[..k] == xs[..k];
      } else {
        assert (xs + ys)[..k] == xs + ys[..k - |xs|];
        CountsConcat(xs, ys[..k - |xs|]);
      }
    }
  }

  /** One wait, any other actions, one signal: balanced and closed. */
  lemma BracketBalanced(inner: seq<Action>)
    requires forall k :: 0 <= k < |inner| ==> !inner[k].Wait? && !inner[k].Signal?
    ensures var a := [Wait] + inner + [Signal];
            PrefixBalanced(a) && Waits(a) == 1 && Signals(a) == 1
  {
    var a := [Wait] + inner + [Signal];
    CountsConcat([Wait] + inner, [Signal]);
    CountsConcat([Wait], inner);
    CountsSingle(Wait);
    CountsSingle(Signal);
    QuietCounts(inner);
    forall k | 0 <= k <= |a|
      ensures Signals(a[..k]) <= Waits(a[..k]) <= Signals(a[..k]) + 1
    {
      if k == 0 {
        assert a[..k] == [];
      } else if k <= |inner| + 1 {
        assert a[..k] == [Wait] + inner[..k - 1];
        CountsConcat([Wait], inner[..k - 1]);
        QuietCounts(inner[..k - 1]);
      } else {
        assert a[..k] == a;
      }
    }
  }

  /** Actions with neither a wait nor a signal count zero of each. */
  lemma {:induction false} QuietCounts(xs: seq<Action>)
    requires forall k :: 0 <= k < |xs| ==> !xs[k].Wait? && !xs[k].Signal?
    ensures Waits(xs) == 0 && Signals(xs) == 0
    decreases |xs|
  {
    if |xs| > 0 {
      QuietCounts(xs[1..]);
    }
  }

  /** The actions of a sequence of calls through the decorator, in order. */
  function DecoratedActions<S>(d: Decorator, f: (S, Ptr, nat) -> Step<S>, s: S, calls: seq<(Ptr, nat)>): seq<Action>
    requires d.mutex.count > 0
    decreases |calls|
  {
    if |calls| == 0 then []
    else
      var fwd := Forward(d, f, s, calls[0].0, calls[0].1);
      fwd.actions + DecoratedActions(fwd.decorator, f, fwd.step.state, calls[1..])
  }

  /** Any sequence of calls through the decorator is balanced: one wait and one signal per
      call, and at no point are two calls inside the child at once. */
  lemma {:induction false} DecoratedRunBalanced<S>(d: Decorator, f: (S, Ptr, nat) -> Step<S>, s: S, calls: seq<(Ptr, nat)>)
    requires d.mutex.count > 0
    ensures var a := DecoratedActions(d, f, s, calls);
            PrefixBalanced(a) && Waits(a) == |calls| && Signals(a) == |calls|
    decreases |calls|
  {
    var a := DecoratedActions(d, f, s, calls);
    if |calls| == 0 {
      assert forall k :: 0 <= k <= |a| ==> a[..k] == [];
    } else {
      var fwd := Forward(d, f, s, calls[0].0, calls[0].1);
      var rest := DecoratedActions(fwd.decorator, f, fwd.step.state, calls[1..]);
      DecoratedRunBalanced(fwd.decorator, f, fwd.step.state, calls[1..]);
      var c := ChildCall(Classify(calls[0].0, calls[0].1));
      BracketBalanced([c]);
      assert fwd.actions == [Wait] + [c] + [Signal];
      PrefixBalancedConcat(fwd.actions, rest);
      CountsConcat(fwd.actions, rest);
    }
  }

  /** A decorator's whole life after create: any calls, then destroy. The trace stays
      balanced, and the semaphore is deinitialised only once every wait has its signal,
      so destroy never tears down a semaphore a call still holds. */
  lemma SessionBalanced<S>(h: Handle, d: Decorator, f: (S, Ptr, nat) -> Step<S>, s: S, calls: seq<(Ptr, nat)>)
    requires h.cap.resize == SynchronizedResize && d.mutex.count > 0
    ensures var run := DecoratedActions(d, f, s, calls);
            var trace := run + Destroy(h, DecoratedRun(d, f, s, calls).2).actions;
            && PrefixBalanced(trace)
            && |trace| >= 2 && trace[|trace| - 2] == SemDeinit
            && Waits(trace[..|trace| - 2]) == Signals(trace[..|trace| - 2]) == |calls| + 1
  {
    var run := DecoratedActions(d, f, s, calls);
    var ending := Destroy(h, DecoratedRun(d, f, s, calls).2).actions;
    var trace := run + ending;
    DecoratedRunBalanced(d, f, s, calls);
    var tail := [ending[2], ending[3]];
    assert ending == [Wait] + [] + [Signal] + tail;
    BracketBalanced([]);
    assert PrefixBalanced(tail) by {
      assert forall k :: 0 <= k <= 2 ==> tail[..k] == [] || tail[..k] == [SemDeinit] || tail[..k] == tail;
      CountsConcat([SemDeinit], [ending[3]]);
      CountsSingle(SemDeinit);
      CountsSingle(ending[3]);
    }
    PrefixBalancedConcat([Wait] + [] + [Signal], tail);
    PrefixBalancedConcat(run, ending);
    assert trace[..|trace| - 2] == run + ([Wait] + [] + [Signal]);
    CountsConcat(run, [Wait] + [] + [Signal]);
  }
}
