/** The queue that holds messages whose signer is not known yet
    (common/message_queue/mq_signing.cpp), as a state machine over its lock regions and
    callbacks: any number of resolver threads interleave with arrivals and with shutdown. */
module IdentityResolution {
  import opened Common

  datatype Limits = Limits(maxPendingMessages: nat, maxPendingPerSigner: nat)

  datatype Request = Request(signer: Uuid, message: Bytes)

  datatype Entry = Entry(messages: seq<Bytes>, resolverActive: bool)

  /** What the pending mutex guards. */
  datatype Store = Store(pending: map<Uuid, Entry>, total: int, stopping: bool)

  /** Where a resolver thread stands. Owed: asked for, thread not created yet. Draining knows
      whether it replays or fails what it is about to take. */
  datatype Phase =
    | Owed | Starting | Requesting | Checking | Locking | Waiting
    | Draining(replays: bool)
    | Delivering(left: seq<Bytes>, replays: bool)
    | Finished

  /** known and gaveUp record what the thread has learned: that the identity callback said
      yes, or that the request was refused, the deadline passed or the queue was stopping. */
  datatype Resolver = Resolver(signer: Uuid, phase: Phase, known: bool, gaveUp: bool)

  /** The last four fields record what has happened to every message so far. */
  datatype System = System(
    limits: Limits, store: Store, resolvers: seq<Resolver>,
    accepted: multiset<Request>, rejected: multiset<Request>,
    replayed: multiset<Request>, failed: multiset<Request>)

  // ---------------------------------------------------------------- arrivals

  predicate Refuses(limits: Limits, st: Store, signer: Uuid) {
    || st.stopping
    || (limits.maxPendingMessages != 0 && st.total >= limits.maxPendingMessages)
    || (limits.maxPendingPerSigner != 0 && |Queue(st, signer)| >= limits.maxPendingPerSigner)
  }

  function Queue(st: Store, signer: Uuid): seq<Bytes> {
    if signer in st.pending then st.pending[signer].messages else []
  }

  predicate StartsResolver(st: Store, signer: Uuid) {
    signer in st.pending ==> !st.pending[signer].resolverActive
  }

  /** The store after taking in one message. */
  function Enqueued(st: Store, signer: Uuid, message: Bytes): Store {
    Store(st.pending[signer := Entry(Queue(st, signer) + [message], true)], st.total + 1, st.stopping)
  }

  function Drained(st: Store, signer: Uuid): Store {
    Store(st.pending - {signer}, st.total - |Queue(st, signer)|, st.stopping)
  }

  function Arrive(y: System, q: Request): System {
    if Refuses(y.limits, y.store, q.signer) then y.(rejected := y.rejected + multiset{q})
    else y.(
      store := Enqueued(y.store, q.signer, q.message),
      accepted := y.accepted + multiset{q},
      resolvers := if StartsResolver(y.store, q.signer) then y.resolvers + [Resolver(q.signer, Owed, false, false)]
                   else y.resolvers)
  }

  // ---------------------------------------------------------------- resolver threads

  /** One move of a resolver that leaves the store alone. The answer is what the callback or
      the clock says there: identity known, request sent, deadline passed. */
  function Move(phase: Phase, st: Store, signer: Uuid, answer: bool): Phase
    requires !phase.Draining? && !phase.Delivering?
  {
    match phase
    case Owed => Starting
    case Starting => if answer then Draining(true) else Requesting
    case Requesting => if answer then Checking else Draining(false)
    case Checking => if answer then Draining(true) else Locking
    case Locking =>
      if signer !in st.pending then Finished
      else if st.stopping || answer then Draining(false)
      else Waiting
    case Waiting => Checking
    case Finished => Finished
  }

  predicate LearnsIdentity(phase: Phase, answer: bool) {
    (phase == Starting || phase == Checking) && answer
  }

  predicate GivesUp(phase: Phase, st: Store, answer: bool) {
    (phase == Requesting && !answer) || (phase == Locking && (st.stopping || answer))
  }

  function Moved(r: Resolver, st: Store, answer: bool): Resolver
    requires !r.phase.Draining? && !r.phase.Delivering?
  {
    Resolver(r.signer, Move(r.phase, st, r.signer, answer),
             r.known || LearnsIdentity(r.phase, answer), r.gaveUp || GivesUp(r.phase, st, answer))
  }

  /** A resolver takes its whole signer queue. */
  function Take(y: System, i: nat): System
    requires i < |y.resolvers| && y.resolvers[i].phase.Draining?
  {
    var r := y.resolvers[i];
    y.(store := Drained(y.store, r.signer),
       resolvers := y.resolvers[i := r.(phase := Delivering(Queue(y.store, r.signer), r.phase.replays))])
  }

  /** A resolver hands on its next message; the answer is whether the replay was taken. */
  function Deliver(y: System, i: nat, answer: bool): System
    requires i < |y.resolvers| && y.resolvers[i].phase.Delivering?
  {
    var r := y.resolvers[i];
    if r.phase.left == [] then y.(resolvers := y.resolvers[i := r.(phase := Finished)])
    else
      var q := Request(r.signer, r.phase.left[0]);
      var y' := y.(resolvers := y.resolvers[i := r.(phase := Delivering(r.phase.left[1..], r.phase.replays))]);
      if r.phase.replays && answer then y'.(replayed := y.replayed + multiset{q})
      else y'.(failed := y.failed + multiset{q})
  }

  function Resolve(y: System, i: nat, answer: bool): System
    requires i < |y.resolvers|
  {
    var r := y.resolvers[i];
    if r.phase.Draining? then Take(y, i)
    else if r.phase.Delivering? then Deliver(y, i, answer)
    else y.(resolvers := y.resolvers[i := Moved(r, y.store, answer)])
  }

  // ---------------------------------------------------------------- runs

  datatype Step = DoArrive(request: Request) | DoResolve(i: nat, answer: bool) | DoStop

  predicate Enabled(y: System, step: Step) {
    step.DoResolve? ==> step.i < |y.resolvers| && !y.resolvers[step.i].phase.Finished?
  }

  function Next(y: System, step: Step): System
    requires Enabled(y, step)
  {
    match step
    case DoArrive(q) => Arrive(y, q)
    case DoResolve(i, answer) => Resolve(y, i, answer)
    case DoStop => y.(store := y.store.(stopping := true))
  }

  function Init(limits: Limits): System {
    System(limits, Store(map[], 0, false), [], multiset{}, multiset{}, multiset{}, multiset{})
  }

  /** y' is reached from y by taking the steps in order, each enabled in its turn. */
  predicate Run(y: System, steps: seq<Step>, y': System)
    decreases steps
  {
    if steps == [] then y == y'
    else Enabled(y, steps[0]) && Run(Next(y, steps[0]), steps[1..], y')
  }

  // ---------------------------------------------------------------- counting

  /** Sum of the per-signer queue lengths. */
  ghost function PendingCount(pending: map<Uuid, Entry>): nat
    decreases |pending|
  {
    if pending == map[] then 0
    else
      var signer :| signer in pending;
      |pending[signer].messages| + PendingCount(pending - {signer})
  }

  lemma {:induction false} PendingCountOf(pending: map<Uuid, Entry>, signer: Uuid)
    requires signer in pending
    ensures PendingCount(pending) == |pending[signer].messages| + PendingCount(pending - {signer})
    decreases |pending|
  {
    var first :| first in pending && PendingCount(pending)
      == |pending[first].messages| + PendingCount(pending - {first});
    if first != signer {
      PendingCountOf(pending - {first}, signer);
      PendingCountOf(pending - {signer}, first);
      assert pending - {first} - {signer} == pending - {signer} - {first};
    }
  }

  function Occurrences(m: Bytes, messages: seq<Bytes>): nat {
    if messages == [] then 0 else (if messages[0] == m then 1 else 0) + Occurrences(m, messages[1..])
  }

  lemma {:induction false} OccurrencesAppend(m: Bytes, messages: seq<Bytes>, last: Bytes)
    ensures Occurrences(m, messages + [last]) == Occurrences(m, messages) + (if last == m then 1 else 0)
  {
    if messages == [] {
      assert ([] + [last])[1..] == [];
    } else {
      OccurrencesAppend(m, messages[1..], last);
      assert (messages + [last])[1..] == messages[1..] + [last];
    }
  }

  /** How often q waits in the store. */
  function Waits(st: Store, q: Request): nat {
    Occurrences(q.message, Queue(st, q.signer))
  }

  /** How often q is held by resolvers that took it from the store. */
  function InDelivery(resolvers: seq<Resolver>, q: Request): nat {
    if resolvers == [] then 0 else Holds(resolvers[0], q) + InDelivery(resolvers[1..], q)
  }

  function Holds(r: Resolver, q: Request): nat {
    if r.phase.Delivering? && r.signer == q.signer then Occurrences(q.message, r.phase.left) else 0
  }

  lemma {:induction false} InDeliveryUpdate(resolvers: seq<Resolver>, i: nat, r: Resolver, q: Request)
    requires i < |resolvers|
    ensures InDelivery(resolvers[i := r], q) + Holds(resolvers[i], q) == InDelivery(resolvers, q) + Holds(r, q)
  {
    if i > 0 {
      InDeliveryUpdate(resolvers[1..], i - 1, r, q);
      assert resolvers[i := r][1..] == resolvers[1..][i - 1 := r];
    } else {
      assert resolvers[i := r][1..] == resolvers[1..];
    }
  }

  lemma {:induction false} InDeliveryAppend(resolvers: seq<Resolver>, r: Resolver, q: Request)
    ensures InDelivery(resolvers + [r], q) == InDelivery(resolvers, q) + Holds(r, q)
  {
    if resolvers == [] {
      assert (resolvers + [r])[1..] == [];
    } else {
      InDeliveryAppend(resolvers[1..], r, q);
      assert (resolvers + [r])[1..] == resolvers[1..] + [r];
    }
  }

  // ---------------------------------------------------------------- invariant

  /** A resolver that has not emptied its signer's queue yet. */
  predicate YetToDrain(r: Resolver) {
    !r.phase.Delivering? && !r.phase.Finished?
  }

  predicate WithinLimits(limits: Limits, st: Store) {
    && (limits.maxPendingMessages != 0 ==> st.total <= limits.maxPendingMessages)
    && (limits.maxPendingPerSigner != 0 ==>
          forall signer | signer in st.pending :: |st.pending[signer].messages| <= limits.maxPendingPerSigner)
  }

  /** The counter is right, the limits hold, and no entry is empty. */
  ghost predicate StoreInv(limits: Limits, st: Store) {
    && st.total == PendingCount(st.pending) && WithinLimits(limits, st)
    && forall signer | signer in st.pending :: st.pending[signer].messages != [] && st.pending[signer].resolverActive
  }

  /** Some resolver is still to drain every signer queue, ... */
  ghost predicate Served(pending: map<Uuid, Entry>, resolvers: seq<Resolver>) {
    forall signer | signer in pending :: HasDrainer(resolvers, signer)
  }

  predicate HasDrainer(resolvers: seq<Resolver>, signer: Uuid) {
    exists i :: 0 <= i < |resolvers| && resolvers[i].signer == signer && YetToDrain(resolvers[i])
  }

  /** ... no two resolvers are to drain the same one, ... */
  predicate Unshared(resolvers: seq<Resolver>) {
    forall i, j | 0 <= i < |resolvers| && 0 <= j < |resolvers|
                  && YetToDrain(resolvers[i]) && YetToDrain(resolvers[j]) ::
      resolvers[i].signer == resolvers[j].signer ==> i == j
  }

  /** ... and none is to drain a queue that is gone. */
  predicate Owning(pending: map<Uuid, Entry>, resolvers: seq<Resolver>) {
    forall i | 0 <= i < |resolvers| && YetToDrain(resolvers[i]) :: resolvers[i].signer in pending
  }

  ghost predicate ResolverInv(pending: map<Uuid, Entry>, resolvers: seq<Resolver>) {
    Served(pending, resolvers) && Unshared(resolvers) && Owning(pending, resolvers)
  }

  /** A resolver decides to replay exactly when it knows the identity, and to fail exactly
      when it gave up without knowing it. */
  predicate Decided(r: Resolver) {
    match r.phase
    case Draining(replays) => r.known == replays && r.gaveUp == !replays
    case Delivering(_, replays) => r.known == replays && r.gaveUp == !replays
    case Finished => true
    case _ => !r.known && !r.gaveUp
  }

  predicate AllDecided(resolvers: seq<Resolver>) {
    forall i | 0 <= i < |resolvers| :: Decided(resolvers[i])
  }

  ghost predicate Inv(y: System) {
    StoreInv(y.limits, y.store) && ResolverInv(y.store.pending, y.resolvers) && AllDecided(y.resolvers)
  }

  /** Every accepted copy of q waits, is in delivery, was replayed or was failed. */
  predicate Conserved(y: System, q: Request) {
    y.accepted[q] == Waits(y.store, q) + InDelivery(y.resolvers, q) + y.replayed[q] + y.failed[q]
  }

  // ---------------------------------------------------------------- every step keeps the shape

  lemma EnqueuedInv(limits: Limits, st: Store, signer: Uuid, m: Bytes)
    requires StoreInv(limits, st) && !Refuses(limits, st, signer)
    ensures StoreInv(limits, Enqueued(st, signer, m))
  {
    var st' := Enqueued(st, signer, m);
    assert st'.pending - {signer} == st.pending - {signer};
    PendingCountOf(st'.pending, signer);
    if signer in st.pending {
      PendingCountOf(st.pending, signer);
    } else {
      assert st.pending == st.pending - {signer};
    }
  }

  lemma DrainedInv(limits: Limits, st: Store, signer: Uuid)
    requires StoreInv(limits, st)
    ensures StoreInv(limits, Drained(st, signer))
  {
    if signer in st.pending {
      PendingCountOf(st.pending, signer);
    } else {
      assert st.pending - {signer} == st.pending;
    }
  }

  lemma AddedResolver(pending: map<Uuid, Entry>, resolvers: seq<Resolver>, pending': map<Uuid, Entry>, signer: Uuid)
    requires ResolverInv(pending, resolvers) && signer !in pending && pending'.Keys == pending.Keys + {signer}
    ensures ResolverInv(pending', resolvers + [Resolver(signer, Owed, false, false)])
  {
    var resolvers' := resolvers + [Resolver(signer, Owed, false, false)];
    forall other | other in pending' ensures HasDrainer(resolvers', other) {
      if other == signer {
        assert resolvers'[|resolvers|] == Resolver(signer, Owed, false, false);
      } else {
        assert HasDrainer(resolvers, other);
        var i :| 0 <= i < |resolvers| && resolvers[i].signer == other && YetToDrain(resolvers[i]);
        assert resolvers'[i] == resolvers[i];
      }
    }
  }

  lemma ArriveInv(y: System, q: Request)
    requires Inv(y)
    ensures Inv(Arrive(y, q))
  {
    if !Refuses(y.limits, y.store, q.signer) {
      EnqueuedInv(y.limits, y.store, q.signer, q.message);
      var pending' := Enqueued(y.store, q.signer, q.message).pending;
      if q.signer in y.store.pending {
        assert pending'.Keys == y.store.pending.Keys;
      } else {
        AddedResolver(y.store.pending, y.resolvers, pending', q.signer);
      }
    }
  }

  /** Replacing a resolver by one that serves the same signer, or that like it serves none. */
  lemma ReplacedResolver(pending: map<Uuid, Entry>, resolvers: seq<Resolver>, i: nat, r: Resolver)
    requires ResolverInv(pending, resolvers) && i < |resolvers|
    requires r.signer == resolvers[i].signer && YetToDrain(r) == YetToDrain(resolvers[i])
    ensures ResolverInv(pending, resolvers[i := r])
  {
    var resolvers' := resolvers[i := r];
    forall signer | signer in pending ensures HasDrainer(resolvers', signer) {
      assert HasDrainer(resolvers, signer);
      var j :| 0 <= j < |resolvers| && resolvers[j].signer == signer && YetToDrain(resolvers[j]);
      assert resolvers'[j].signer == signer && YetToDrain(resolvers'[j]);
    }
  }

  /** A resolver that takes its queue stops serving exactly when the queue goes. */
  lemma ReleasedResolver(pending: map<Uuid, Entry>, resolvers: seq<Resolver>, i: nat, r: Resolver)
    requires ResolverInv(pending, resolvers) && i < |resolvers| && YetToDrain(resolvers[i]) && !YetToDrain(r)
    ensures ResolverInv(pending - {resolvers[i].signer}, resolvers[i := r])
  {
    var resolvers' := resolvers[i := r];
    forall signer | signer in pending - {resolvers[i].signer} ensures HasDrainer(resolvers', signer) {
      assert HasDrainer(resolvers, signer);
      var j :| 0 <= j < |resolvers| && resolvers[j].signer == signer && YetToDrain(resolvers[j]);
      assert resolvers'[j] == resolvers[j];
    }
  }

  lemma MovedDecided(r: Resolver, st: Store, answer: bool)
    requires Decided(r) && !r.phase.Draining? && !r.phase.Delivering?
    ensures Decided(Moved(r, st, answer))
  {
  }

  lemma ResolveDecided(y: System, i: nat, answer: bool)
    requires AllDecided(y.resolvers) && i < |y.resolvers|
    ensures AllDecided(Resolve(y, i, answer).resolvers)
  {
    var r := y.resolvers[i];
    assert Decided(r);
    if !r.phase.Draining? && !r.phase.Delivering? { MovedDecided(r, y.store, answer); }
  }

  lemma TakeInv(y: System, i: nat)
    requires Inv(y) && i < |y.resolvers| && y.resolvers[i].phase.Draining?
    ensures StoreInv(y.limits, Take(y, i).store) && ResolverInv(Take(y, i).store.pending, Take(y, i).resolvers)
  {
    DrainedInv(y.limits, y.store, y.resolvers[i].signer);
    ReleasedResolver(y.store.pending, y.resolvers, i, Take(y, i).resolvers[i]);
  }

  lemma MoveInv(y: System, i: nat, answer: bool)
    requires Inv(y) && i < |y.resolvers| && !y.resolvers[i].phase.Draining? && !y.resolvers[i].phase.Delivering?
    ensures ResolverInv(y.store.pending, y.resolvers[i := Moved(y.resolvers[i], y.store, answer)])
  {
    if YetToDrain(y.resolvers[i]) { EntryPresent(y, i); }
    ReplacedResolver(y.store.pending, y.resolvers, i, Moved(y.resolvers[i], y.store, answer));
  }

  lemma ResolveInv(y: System, i: nat, answer: bool)
    requires Inv(y) && i < |y.resolvers|
    ensures Inv(Resolve(y, i, answer))
  {
    ResolveDecided(y, i, answer);
    if y.resolvers[i].phase.Draining? {
      TakeInv(y, i);
    } else if y.resolvers[i].phase.Delivering? {
      ReplacedResolver(y.store.pending, y.resolvers, i, Deliver(y, i, answer).resolvers[i]);
    } else {
      MoveInv(y, i, answer);
    }
  }

  lemma NextInv(y: System, step: Step)
    requires Inv(y) && Enabled(y, step)
    ensures Inv(Next(y, step))
  {
    match step
    case DoArrive(q) => ArriveInv(y, q);
    case DoStop =>
    case DoResolve(i, answer) => ResolveInv(y, i, answer);
  }

  // ---------------------------------------------------------------- every step conserves messages

  lemma ArriveConserves(y: System, a: Request, q: Request)
    requires Conserved(y, q)
    ensures Conserved(Arrive(y, a), q)
  {
    if !Refuses(y.limits, y.store, a.signer) {
      OccurrencesAppend(q.message, Queue(y.store, a.signer), a.message);
      InDeliveryAppend(y.resolvers, Resolver(a.signer, Owed, false, false), q);
    }
  }

  lemma TakeConserves(y: System, i: nat, q: Request)
    requires Conserved(y, q) && i < |y.resolvers| && y.resolvers[i].phase.Draining?
    ensures Conserved(Take(y, i), q)
  {
    InDeliveryUpdate(y.resolvers, i, Take(y, i).resolvers[i], q);
  }

  lemma DeliverConserves(y: System, i: nat, answer: bool, q: Request)
    requires Conserved(y, q) && i < |y.resolvers| && y.resolvers[i].phase.Delivering?
    ensures Conserved(Deliver(y, i, answer), q)
  {
    InDeliveryUpdate(y.resolvers, i, Deliver(y, i, answer).resolvers[i], q);
  }

  lemma NextConserves(y: System, step: Step, q: Request)
    requires Conserved(y, q) && Enabled(y, step)
    ensures Conserved(Next(y, step), q)
  {
    match step
    case DoArrive(a) => ArriveConserves(y, a, q);
    case DoStop =>
    case DoResolve(i, answer) =>
      if y.resolvers[i].phase.Draining? {
        TakeConserves(y, i, q);
      } else if y.resolvers[i].phase.Delivering? {
        DeliverConserves(y, i, answer, q);
      } else {
        InDeliveryUpdate(y.resolvers, i, Next(y, step).resolvers[i], q);
      }
  }

  // ---------------------------------------------------------------- results over whole runs

  lemma EntryPresent(y: System, i: nat)
    requires Inv(y) && i < |y.resolvers| && YetToDrain(y.resolvers[i])
    ensures y.resolvers[i].signer in y.store.pending
  {
  }

  lemma {:induction false} RunInv(y: System, steps: seq<Step>, y': System)
    requires Inv(y) && Run(y, steps, y')
    ensures Inv(y') && y'.limits == y.limits
    decreases steps
  {
    if steps != [] {
      NextInv(y, steps[0]);
      RunInv(Next(y, steps[0]), steps[1..], y');
    }
  }

  lemma InitInv(limits: Limits)
    ensures Inv(Init(limits))
  {
  }

  /** In every reachable state the pending counter is the sum of the per-signer queues, both
      limits hold, and each signer queue is non-empty with exactly one resolver yet to drain it. */
  lemma PendingSound(limits: Limits, steps: seq<Step>, y: System)
    requires Run(Init(limits), steps, y)
    ensures y.store.total == PendingCount(y.store.pending)
    ensures WithinLimits(limits, y.store)
    ensures forall signer | signer in y.store.pending :: y.store.pending[signer].messages != []
    ensures forall signer | signer in y.store.pending :: HasDrainer(y.resolvers, signer)
    ensures forall i, j | 0 <= i < |y.resolvers| && 0 <= j < |y.resolvers| && YetToDrain(y.resolvers[i])
                          && YetToDrain(y.resolvers[j]) && y.resolvers[i].signer == y.resolvers[j].signer :: i == j
    ensures forall i | 0 <= i < |y.resolvers| && YetToDrain(y.resolvers[i]) :: y.resolvers[i].signer in y.store.pending
  {
    InitInv(limits);
    RunInv(Init(limits), steps, y);
  }

  /** In every reachable state a resolver about to look its signer up, or waiting on its entry,
      finds the entry: the wait loop's early return is never taken, and the condition variable it
      waits on outlives the wait. */
  lemma LookupNeverMisses(limits: Limits, steps: seq<Step>, y: System, i: nat, answer: bool)
    requires Run(Init(limits), steps, y) && i < |y.resolvers|
    requires y.resolvers[i].phase.Locking? || y.resolvers[i].phase.Waiting?
    ensures y.resolvers[i].signer in y.store.pending
    ensures !Resolve(y, i, answer).resolvers[i].phase.Finished?
  {
    InitInv(limits);
    RunInv(Init(limits), steps, y);
    EntryPresent(y, i);
  }

  /** In every reachable state, a message is replayed only by a resolver that learned its
      signer's identity, and failed without a replay only by one that gave up. */
  lemma ReplayedOnlyIfKnown(limits: Limits, steps: seq<Step>, y: System, i: nat, answer: bool)
    requires Run(Init(limits), steps, y) && i < |y.resolvers|
    ensures Resolve(y, i, answer).replayed != y.replayed ==> y.resolvers[i].known && answer
    ensures Resolve(y, i, answer).failed != y.failed ==> y.resolvers[i].gaveUp || (y.resolvers[i].known && !answer)
  {
    InitInv(limits);
    RunInv(Init(limits), steps, y);
    assert Decided(y.resolvers[i]);
  }

  /** How often q was handed to the queue. */
  function Arrivals(steps: seq<Step>, q: Request): nat {
    if steps == [] then 0
    else (if steps[0] == DoArrive(q) then 1 else 0) + Arrivals(steps[1..], q)
  }

  lemma {:induction false} RunConserves(y: System, steps: seq<Step>, y': System, q: Request)
    requires Run(y, steps, y') && Conserved(y, q)
    ensures Conserved(y', q)
    ensures y'.accepted[q] + y'.rejected[q] == y.accepted[q] + y.rejected[q] + Arrivals(steps, q)
    decreases steps
  {
    if steps != [] {
      NextConserves(y, steps[0], q);
      RunConserves(Next(y, steps[0]), steps[1..], y', q);
    }
  }

  predicate AllFinished(resolvers: seq<Resolver>) {
    forall i | 0 <= i < |resolvers| :: resolvers[i].phase.Finished?
  }

  lemma {:induction false} FinishedHoldNothing(resolvers: seq<Resolver>, q: Request)
    requires AllFinished(resolvers)
    ensures InDelivery(resolvers, q) == 0
  {
    if resolvers != [] { FinishedHoldNothing(resolvers[1..], q); }
  }

  lemma FinishedLeaveNothing(y: System)
    requires Inv(y) && AllFinished(y.resolvers)
    ensures y.store.pending == map[] && y.store.total == 0
  {
    assert forall signer :: !HasDrainer(y.resolvers, signer);
    assert y.store.pending == map[];
  }

  /** Every copy of every message that arrived was turned away, waits, is in delivery, was
      replayed or was failed, and is in exactly one of these places. */
  lemma Conservation(limits: Limits, steps: seq<Step>, y: System, q: Request)
    requires Run(Init(limits), steps, y)
    ensures Arrivals(steps, q)
         == y.rejected[q] + Waits(y.store, q) + InDelivery(y.resolvers, q) + y.replayed[q] + y.failed[q]
  {
    RunConserves(Init(limits), steps, y, q);
  }

  /** Once all resolvers have finished, nothing waits: each message was handed back once. */
  lemma FinishedConservation(limits: Limits, steps: seq<Step>, y: System, q: Request)
    requires Run(Init(limits), steps, y) && AllFinished(y.resolvers)
    ensures y.store.pending == map[] && y.store.total == 0
    ensures Arrivals(steps, q) == y.rejected[q] + y.replayed[q] + y.failed[q]
  {
    InitInv(limits);
    RunInv(Init(limits), steps, y);
    Conservation(limits, steps, y, q);
    FinishedHoldNothing(y.resolvers, q);
    FinishedLeaveNothing(y);
  }

  // ---------------------------------------------------------------- shutdown

  /** Moves a resolver can still make once the queue is stopping, not counting the messages
      it has still to take. */
  function MovesLeft(phase: Phase): nat {
    match phase
    case Owed => 8 case Starting => 7 case Requesting => 6 case Waiting => 5 case Checking => 4 case Locking => 3
    case Draining(_) => 2 case Delivering(left, _) => 1 + |left| case Finished => 0
  }

  function TotalMoves(resolvers: seq<Resolver>): nat {
    if resolvers == [] then 0 else MovesLeft(resolvers[0].phase) + TotalMoves(resolvers[1..])
  }

  lemma {:induction false} TotalMovesUpdate(resolvers: seq<Resolver>, i: nat, r: Resolver)
    requires i < |resolvers|
    ensures TotalMoves(resolvers[i := r]) + MovesLeft(resolvers[i].phase) == TotalMoves(resolvers) + MovesLeft(r.phase)
  {
    if i > 0 {
      TotalMovesUpdate(resolvers[1..], i - 1, r);
      assert resolvers[i := r][1..] == resolvers[1..][i - 1 := r];
    } else {
      assert resolvers[i := r][1..] == resolvers[1..];
    }
  }

  function Rank(y: System): int {
    y.store.total + TotalMoves(y.resolvers)
  }

  lemma QuietMove(phase: Phase, st: Store, signer: Uuid, answer: bool)
    requires st.stopping && signer in st.pending && !phase.Draining? && !phase.Delivering? && !phase.Finished?
    ensures MovesLeft(Move(phase, st, signer, answer)) < MovesLeft(phase)
  {
  }

  lemma StoppingMove(y: System, i: nat, answer: bool)
    requires Inv(y) && y.store.stopping && i < |y.resolvers| && !y.resolvers[i].phase.Finished?
    ensures Rank(Resolve(y, i, answer)) < Rank(y)
  {
    var r := y.resolvers[i];
    var y' := Resolve(y, i, answer);
    TotalMovesUpdate(y.resolvers, i, y'.resolvers[i]);
    assert y'.resolvers == y.resolvers[i := y'.resolvers[i]];
    if r.phase.Draining? {
      assert y'.store.total == y.store.total - |Queue(y.store, r.signer)|;
    } else if r.phase.Delivering? {
      assert y'.store == y.store && MovesLeft(y'.resolvers[i].phase) < MovesLeft(r.phase);
    } else {
      QuietMove(r.phase, y.store, r.signer, answer);
    }
  }

  function ResolverSteps(steps: seq<Step>): nat {
    if steps == [] then 0 else (if steps[0].DoResolve? then 1 else 0) + ResolverSteps(steps[1..])
  }

  /** Once stopping, whatever the callbacks answer and however threads interleave, the
      resolvers take at most Rank steps in all. */
  lemma {:induction false} ShutdownBounded(y: System, steps: seq<Step>, y': System)
    requires Inv(y) && y.store.stopping && Run(y, steps, y')
    ensures ResolverSteps(steps) + Rank(y') <= Rank(y) && 0 <= Rank(y')
    decreases steps
  {
    if steps != [] {
      NextInv(y, steps[0]);
      if steps[0].DoResolve? { StoppingMove(y, steps[0].i, steps[0].answer); }
      ShutdownBounded(Next(y, steps[0]), steps[1..], y');
    }
  }

  /** Joining the resolver threads at shutdown terminates and leaves no message behind: from a
      stopping state the resolvers take a bounded number of steps, and when none of them can
      move they have all finished and every accepted message was replayed or failed. */
  lemma ShutdownDrains(limits: Limits, before: seq<Step>, y: System, after: seq<Step>, y': System, q: Request)
    requires Run(Init(limits), before, y) && y.store.stopping && Run(y, after, y')
    ensures ResolverSteps(after) <= Rank(y)
    ensures (forall i: nat, answer :: !Enabled(y', DoResolve(i, answer))) ==>
              AllFinished(y'.resolvers) && y'.store.pending == map[] && y'.accepted[q] == y'.replayed[q] + y'.failed[q]
  {
    InitInv(limits);
    RunInv(Init(limits), before, y);
    RunInv(y, after, y');
    ShutdownBounded(y, after, y');
    RunConserves(Init(limits), before, y, q);
    RunConserves(y, after, y', q);
    if forall i: nat, answer :: !Enabled(y', DoResolve(i, answer)) {
      forall i | 0 <= i < |y'.resolvers| ensures y'.resolvers[i].phase.Finished? {
        assert !Enabled(y', DoResolve(i, true));
      }
      FinishedHoldNothing(y'.resolvers, q);
      FinishedLeaveNothing(y');
    }
  }

  // ---------------------------------------------------------------- the queue object

  /** The messages among the first n whose replay was answered the given way, in order. */
  function Answered(messages: seq<Bytes>, taken: seq<bool>, answer: bool, n: nat): seq<Bytes>
    requires n <= |messages| == |taken|
  {
    if n == 0 then []
    else Answered(messages, taken, answer, n - 1) + (if taken[n - 1] == answer then [messages[n - 1]] else [])
  }

  lemma {:induction false} AnsweredSplits(messages: seq<Bytes>, taken: seq<bool>, n: nat, m: Bytes)
    requires n <= |messages| == |taken|
    ensures Occurrences(m, messages[..n])
         == Occurrences(m, Answered(messages, taken, true, n)) + Occurrences(m, Answered(messages, taken, false, n))
  {
    if n > 0 {
      AnsweredSplits(messages, taken, n - 1, m);
      assert messages[..n] == messages[..n - 1] + [messages[n - 1]];
      OccurrencesAppend(m, messages[..n - 1], messages[n - 1]);
      OccurrencesAppend(m, Answered(messages, taken, taken[n - 1], n - 1), messages[n - 1]);
      assert Answered(messages, taken, !taken[n - 1], n) == Answered(messages, taken, !taken[n - 1], n - 1);
    }
  }

  class IdentityQueue {
    const limits: Limits
    var pendingBySigner: map<Uuid, Entry>
    var totalPendingMessages: int
    var stopping: bool

    function State(): Store
      reads this
    {
      Store(pendingBySigner, totalPendingMessages, stopping)
    }

    constructor (limits: Limits)
      ensures this.limits == limits && State() == Init(limits).store
    {
      this.limits := limits;
      pendingBySigner, totalPendingMessages, stopping := map[], 0, false;
    }

    /** Takes a message in, or says it is refused and leaves the queue as it was, although the
        code creates the signer's entry before it tests the per-signer limit. */
    method HandleMessage(signer: Uuid, message: Bytes) returns (rejected: bool, startResolver: bool)
      modifies this
      ensures rejected == old(Refuses(limits, State(), signer))
      ensures startResolver == (!rejected && old(StartsResolver(State(), signer)))
      ensures State() == if rejected then old(State()) else old(Enqueued(State(), signer, message))
    {
      rejected, startResolver := true, false;
      if stopping {
        return;
      } else if limits.maxPendingMessages != 0 && totalPendingMessages >= limits.maxPendingMessages {
        return;
      }
      if signer !in pendingBySigner {
        pendingBySigner := pendingBySigner[signer := Entry([], false)];
      }
      var entry := pendingBySigner[signer];
      if limits.maxPendingPerSigner != 0 && |entry.messages| >= limits.maxPendingPerSigner {
        return;
      }
      rejected := false;
      pendingBySigner := pendingBySigner[signer := entry.(messages := entry.messages + [message])];
      totalPendingMessages := totalPendingMessages + 1;
      if !entry.resolverActive {
        pendingBySigner := pendingBySigner[signer := pendingBySigner[signer].(resolverActive := true)];
        startResolver := true;
      }
    }

    /** Empties one signer's queue in arrival order. */
    method DrainSignerMessages(signer: Uuid) returns (drained: seq<Bytes>)
      modifies this
      ensures drained == old(Queue(State(), signer))
      ensures State() == old(Drained(State(), signer))
    {
      drained := [];
      if signer !in pendingBySigner {
        assert pendingBySigner == pendingBySigner - {signer};
        return;
      }
      var messages := pendingBySigner[signer].messages;
      for i := 0 to |messages|
        invariant drained == messages[..i]
        invariant State() == old(State())
      {
        drained := drained + [messages[i]];
      }
      assert drained == messages;
      totalPendingMessages := totalPendingMessages - |drained|;
      pendingBySigner := pendingBySigner - {signer};
    }

    method BeginStopping()
      modifies this
      ensures State() == old(State()).(stopping := true)
    {
      stopping := true;
    }
  }

  /** Replays messages in order; taken[i] is the answer of the i-th replay call. Every copy of
      every message is either taken or failed. */
  method ReplayMessages(messages: seq<Bytes>, taken: seq<bool>) returns (replayed: seq<Bytes>, failed: seq<Bytes>)
    requires |taken| == |messages|
    ensures replayed == Answered(messages, taken, true, |messages|)
    ensures failed == Answered(messages, taken, false, |messages|)
    ensures forall m :: Occurrences(m, messages) == Occurrences(m, replayed) + Occurrences(m, failed)
  {
    replayed, failed := [], [];
    for i := 0 to |messages|
      invariant replayed == Answered(messages, taken, true, i)
      invariant failed == Answered(messages, taken, false, i)
    {
      if taken[i] {
        replayed := replayed + [messages[i]];
      } else {
        failed := failed + [messages[i]];
      }
    }
    assert messages[..|messages|] == messages;
    forall m ensures Occurrences(m, messages) == Occurrences(m, replayed) + Occurrences(m, failed) {
      AnsweredSplits(messages, taken, |messages|, m);
    }
  }
}
