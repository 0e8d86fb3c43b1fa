/** The Windows backend's task dispatcher: a message-only window that runs
    posted closures on the UI thread. Every packet carries the generation
    that was current when it was posted, and a packet runs only if that
    generation is still the live one; Initialize and Shutdown both advance
    the generation, so packets from an earlier window never run. */
module WinDispatcher {

  /** A posted closure (identified by `task`) and the generation it was posted under. */
  datatype Packet = Packet(task: nat, generation: nat)

  /** What PostTask reads under the lock before posting: whether a window
      exists, and the current generation. */
  datatype Snapshot = Snapshot(live: bool, generation: nat)

  /** The dispatcher's state: whether the window exists, the generation
      counter, the packets waiting in the window's message queue, and two
      logs: the packets whose closure ran and the packets that were deleted. */
  datatype DState = DState(
    live: bool,
    generation: nat,
    queue: seq<Packet>,
    ran: seq<Packet>,
    freed: seq<Packet>)

  /** One step of the dispatcher. In `Initialize`, `created` is whether
      CreateWindowEx returned a window. `Post` is the second half of PostTask: it
      delivers a closure under a snapshot taken earlier; `posted` is whether
      PostMessage accepted the packet. `Dispatch` is the window procedure
      receiving the packet at the head of the queue. */
  datatype Op =
    | Initialize(created: bool)
    | Shutdown
    | Post(task: nat, snap: Snapshot, posted: bool)
    | Dispatch

  /** Initialize: nothing if the window exists; otherwise try to create it and
      advance the generation whether or not the window was created. */
  function InitializeStep(s: DState, created: bool): (r: DState)
    ensures r.live <==> s.live || created
    ensures s.live ==> r == s
    ensures !s.live ==> r == s.(live := created, generation := s.generation + 1)
  {
    if s.live then s else s.(live := created, generation := s.generation + 1)
  }

  /** A failed window creation still retires the old generation: no closure
      posted under a snapshot taken before it ever runs, and, with no window,
      posting drops the closure. */
  lemma FailedInitializeRetires(s: DState, snap: Snapshot, task: nat, posted: bool, ops: seq<Op>)
    requires !s.live && Taken(s, snap)
    ensures var t := Run(InitializeStep(s, false), ops);
      forall i :: |s.ran| <= i < |t.ran| ==> t.ran[i].generation != snap.generation
    ensures var f := InitializeStep(s, false);
      PostStep(f, task, Snapshot(f.live, f.generation), posted) == f
  {
    RunOnlyCurrent(InitializeStep(s, false), ops);
  }

  /** Shutdown: nothing if there is no window; otherwise drop the window,
      advance the generation, and delete every packet still queued without
      running it. */
  function ShutdownStep(s: DState): (r: DState)
    ensures !r.live && r.ran == s.ran
    ensures s.live ==> r.queue == [] && r.generation == s.generation + 1 && r.freed == s.freed + s.queue
    ensures !s.live ==> r == s
  {
    if !s.live then s
    else s.(live := false, generation := s.generation + 1, queue := [], freed := s.freed + s.queue)
  }

  /** Delivery of a packet under an earlier snapshot. A snapshot without a
      window drops the closure; a rejected PostMessage deletes the packet. */
  function PostStep(s: DState, task: nat, snap: Snapshot, posted: bool): (r: DState)
    ensures !snap.live ==> r == s
    ensures snap.live && posted ==> r == s.(queue := s.queue + [Packet(task, snap.generation)])
    ensures snap.live && !posted ==> r == s.(freed := s.freed + [Packet(task, snap.generation)])
  {
    if !snap.live then s
    else if posted then s.(queue := s.queue + [Packet(task, snap.generation)])
    else s.(freed := s.freed + [Packet(task, snap.generation)])
  }

  /** The window procedure: the head packet runs iff its generation is the live
      one, and it is deleted in either case. */
  function DispatchStep(s: DState): (r: DState)
    ensures s.queue == [] ==> r == s
    ensures s.queue != [] ==>
      && r.live == s.live && r.generation == s.generation
      && r.queue == s.queue[1..]
      && r.freed == s.freed + [s.queue[0]]
      && (r.ran == if s.queue[0].generation == s.generation then s.ran + [s.queue[0]] else s.ran)
  {
    if s.queue == [] then s
    else
      var p := s.queue[0];
      s.(queue := s.queue[1..],
         ran := if p.generation == s.generation then s.ran + [p] else s.ran,
         freed := s.freed + [p])
  }

  function Apply(s: DState, op: Op): DState {
    match op
    case Initialize(created) => InitializeStep(s, created)
    case Shutdown => ShutdownStep(s)
    case Post(task, snap, posted) => PostStep(s, task, snap, posted)
    case Dispatch => DispatchStep(s)
  }

  /** The state after a sequence of steps. */
  function Run(s: DState, ops: seq<Op>): DState
    decreases |ops|
  {
    if ops == [] then s else Run(Apply(s, ops[0]), ops[1..])
  }

  /** A snapshot that could have been taken in state `s` or earlier. */
  predicate Taken(s: DState, snap: Snapshot) {
    snap.generation <= s.generation
  }

  /** No queued packet claims a generation that has not happened yet. */
  predicate Wf(s: DState) {
    forall p :: p in s.queue ==> p.generation <= s.generation
  }

  lemma ApplyKeepsWf(s: DState, op: Op)
    requires Wf(s)
    requires op.Post? ==> Taken(s, op.snap)
    ensures Wf(Apply(s, op))
  {
    if op.Dispatch? && s.queue != [] {
      assert forall p :: p in s.queue[1..] ==> p in s.queue;
    }
  }

  /** The generation never goes back, and the logs only grow. */
  lemma {:induction false} RunMonotone(s: DState, ops: seq<Op>)
    ensures Run(s, ops).generation >= s.generation
    ensures s.ran <= Run(s, ops).ran
    ensures s.freed <= Run(s, ops).freed
    decreases |ops|
  {
    if ops != [] {
      RunMonotone(Apply(s, ops[0]), ops[1..]);
    }
  }

  /** Every closure that runs from state `s` on was posted under a generation
      at least as recent as the one of `s`. */
  lemma {:induction false} RunOnlyCurrent(s: DState, ops: seq<Op>)
    ensures var t := Run(s, ops);
      |s.ran| <= |t.ran| && forall i :: |s.ran| <= i < |t.ran| ==> t.ran[i].generation >= s.generation
    decreases |ops|
  {
    if ops != [] {
      var s1 := Apply(s, ops[0]);
      RunOnlyCurrent(s1, ops[1..]);
      RunMonotone(s1, ops[1..]);
      var t := Run(s, ops);
      assert t == Run(s1, ops[1..]);
      forall i | |s.ran| <= i < |t.ran| ensures t.ran[i].generation >= s.generation {
        if i < |s1.ran| {
          assert s1.ran == t.ran[..|s1.ran|];
          assert s1.ran[i] == t.ran[i];
        }
      }
    }
  }

  /** A closure posted under any snapshot taken before a Shutdown never runs
      after it, whatever happens next (including a new Initialize). */
  lemma NothingPostedBeforeShutdownRuns(s: DState, snap: Snapshot, ops: seq<Op>)
    requires s.live && Taken(s, snap)
    ensures var t := Run(ShutdownStep(s), ops);
      forall i :: |s.ran| <= i < |t.ran| ==> t.ran[i].generation != snap.generation
  {
    RunOnlyCurrent(ShutdownStep(s), ops);
  }

  /** Every closure that ran was also deleted: running never skips the
      delete. Stated on multisets since the same packet may be posted more
      than once. */
  lemma {:induction false} EveryRunIsFreed(s: DState, ops: seq<Op>)
    requires multiset(s.ran) <= multiset(s.freed)
    ensures multiset(Run(s, ops).ran) <= multiset(Run(s, ops).freed)
    decreases |ops|
  {
    if ops != [] {
      EveryRunIsFreed(Apply(s, ops[0]), ops[1..]);
    }
  }

  /** No packet is lost: what has been accepted into the queue is either still
      queued or has been deleted. */
  lemma {:induction false} PacketsConserved(s: DState, ops: seq<Op>)
    ensures var t := Run(s, ops);
      multiset(t.queue) + multiset(t.freed) == multiset(s.queue) + multiset(s.freed) + multiset(Accepted(ops))
    decreases |ops|
  {
    if ops != [] {
      var s1 := Apply(s, ops[0]);
      PacketsConserved(s1, ops[1..]);
      StepConserves(s, ops[0]);
      assert Run(s, ops) == Run(s1, ops[1..]);
      assert multiset(Accepted(ops)) == multiset(AcceptedBy(ops[0])) + multiset(Accepted(ops[1..]));
    }
  }

  lemma StepConserves(s: DState, op: Op)
    ensures var t := Apply(s, op);
      multiset(t.queue) + multiset(t.freed) == multiset(s.queue) + multiset(s.freed) + multiset(AcceptedBy(op))
  {
    if op.Dispatch? && s.queue != [] {
      assert s.queue == [s.queue[0]] + s.queue[1..];
    }
  }

  /** The packet a step creates: one for a Post under a live snapshot. */
  function AcceptedBy(op: Op): (r: seq<Packet>)
    ensures |r| <= 1
    ensures r != [] <==> op.Post? && op.snap.live
  {
    match op
    case Post(task, snap, _) => if snap.live then [Packet(task, snap.generation)] else []
    case _ => []
  }

  /** The packets a sequence of steps creates. */
  function Accepted(ops: seq<Op>): (r: seq<Packet>)
    ensures |r| <= |ops|
    decreases |ops|
  {
    if ops == [] then [] else AcceptedBy(ops[0]) + Accepted(ops[1..])
  }

  /** The dispatcher object. */
  class Dispatcher {
    var live: bool
    var generation: nat
    var queue: seq<Packet>
    ghost var ran: seq<Packet>
    ghost var freed: seq<Packet>

    ghost function State(): DState
      reads this
    {
      DState(live, generation, queue, ran, freed)
    }

    ghost predicate Valid()
      reads this
    {
      Wf(State())
    }

    constructor ()
      ensures Valid() && State() == DState(false, 0, [], [], [])
    {
      live, generation, queue := false, 0, [];
      ran, freed := [], [];
    }

    /** `created` is whether CreateWindowEx returned a window. */
    method Initialize(created: bool)
      requires Valid()
      modifies this
      ensures Valid() && State() == InitializeStep(old(State()), created)
    {
      if live { return; }
      live := created;
      generation := generation + 1;
    }

    method Shutdown()
      requires Valid()
      modifies this
      ensures Valid() && State() == ShutdownStep(old(State()))
    {
      if !live { return; }
      live := false;
      generation := generation + 1;
      // Drain the message queue of the window being destroyed.
      while queue != []
        invariant freed + queue == old(freed) + old(queue)
        invariant ran == old(ran)
        invariant !live && generation == old(generation) + 1
        decreases |queue|
      {
        freed := freed + [queue[0]];
        queue := queue[1..];
      }
    }

    /** The first half of PostTask: read the window and the generation. */
    method Snap() returns (snap: Snapshot)
      ensures snap == Snapshot(live, generation)
      ensures Taken(State(), snap)
    {
      snap := Snapshot(live, generation);
    }

    /** The second half of PostTask. */
    method Deliver(task: nat, snap: Snapshot, posted: bool)
      requires Valid() && Taken(State(), snap)
      modifies this
      ensures Valid() && State() == PostStep(old(State()), task, snap, posted)
    {
      if !snap.live { return; }
      var packet := Packet(task, snap.generation);
      if posted {
        queue := queue + [packet];
      } else {
        freed := freed + [packet];
      }
    }

    /** The window procedure handling one dispatcher message. */
    method Dispatch()
      requires Valid()
      modifies this
      ensures Valid() && State() == DispatchStep(old(State()))
    {
      if queue == [] { return; }
      var packet := queue[0];
      queue := queue[1..];
      if packet.generation == generation {
        ran := ran + [packet];
      }
      freed := freed + [packet];
      ApplyKeepsWf(old(State()), Op.Dispatch);
    }
  }
}
