/** The identity-resolution queue keeps messages in order (common/message_queue/mq_signing.cpp):
    over every run, what was accepted from a signer is what its resolvers handed on, what they
    still hold and what waits, one after the other. */
module IdentityOrder {
  import opened Common
  import opened IdentityResolution

  // ---------------------------------------------------------------- what happens, in order

  /** The accepted requests, and for each resolver the messages it has handed on. */
  datatype Log = Log(accepted: seq<Request>, handed: seq<seq<Bytes>>)

  const NOTHING_YET := Log([], [])

  function Noted(y: System, log: Log, step: Step): Log
    requires Enabled(y, step) && |log.handed| == |y.resolvers|
  {
    match step
    case DoArrive(q) =>
      if Refuses(y.limits, y.store, q.signer) then log
      else Log(log.accepted + [q],
               if StartsResolver(y.store, q.signer) then log.handed + [[]] else log.handed)
    case DoResolve(i, _) =>
      var phase := y.resolvers[i].phase;
      if phase.Delivering? && phase.left != []
      then log.(handed := log.handed[i := log.handed[i] + [phase.left[0]]])
      else log
    case DoStop => log
  }

  lemma NotedAligned(y: System, log: Log, step: Step)
    requires Enabled(y, step) && |log.handed| == |y.resolvers|
    ensures |Noted(y, log, step).handed| == |Next(y, step).resolvers|
  {
  }

  /** The log of a whole run. */
  function LogOf(y: System, log: Log, steps: seq<Step>, y': System): Log
    requires Run(y, steps, y') && |log.handed| == |y.resolvers|
    decreases steps
  {
    if steps == [] then log
    else
      NotedAligned(y, log, steps[0]);
      LogOf(Next(y, steps[0]), Noted(y, log, steps[0]), steps[1..], y')
  }

  /** The messages of one signer, in order. */
  function Of(requests: seq<Request>, signer: Uuid): seq<Bytes> {
    if requests == [] then []
    else
      var last := requests[|requests| - 1];
      Of(requests[..|requests| - 1], signer) + (if last.signer == signer then [last.message] else [])
  }

  lemma OfSnoc(requests: seq<Request>, q: Request, signer: Uuid)
    ensures Of(requests + [q], signer) == Of(requests, signer) + (if q.signer == signer then [q.message] else [])
  {
    assert (requests + [q])[..|requests|] == requests;
  }

  /** What a resolver holds: taken from the queue, not yet handed on. */
  function Left(r: Resolver): seq<Bytes> {
    if r.phase.Delivering? then r.phase.left else []
  }

  /** What the resolvers of a signer have taken, in the order the resolvers were created: first
      what each handed on, then what it holds. */
  function Taken(resolvers: seq<Resolver>, handed: seq<seq<Bytes>>, signer: Uuid): seq<Bytes>
    requires |handed| == |resolvers|
  {
    if resolvers == [] then []
    else
      var n := |resolvers| - 1;
      Taken(resolvers[..n], handed[..n], signer)
      + (if resolvers[n].signer == signer then handed[n] + Left(resolvers[n]) else [])
  }

  /** Nothing is lost, repeated or overtaken. */
  predicate InOrder(y: System, log: Log, signer: Uuid)
    requires |log.handed| == |y.resolvers|
  {
    Of(log.accepted, signer) == Taken(y.resolvers, log.handed, signer) + Queue(y.store, signer)
  }

  /** Only the newest resolver of a signer can be yet to drain, and it has handed nothing on. */
  predicate NewestDrains(resolvers: seq<Resolver>, handed: seq<seq<Bytes>>)
    requires |handed| == |resolvers|
  {
    && (forall i, j | 0 <= i < j < |resolvers| && resolvers[i].signer == resolvers[j].signer ::
          !YetToDrain(resolvers[i]))
    && (forall i | 0 <= i < |resolvers| && YetToDrain(resolvers[i]) :: handed[i] == [])
  }

  ghost predicate Ordered(y: System, log: Log) {
    && |log.handed| == |y.resolvers| && NewestDrains(y.resolvers, log.handed)
    && forall signer :: InOrder(y, log, signer)
  }

  // ---------------------------------------------------------------- lists of resolvers

  lemma TakenSnoc(resolvers: seq<Resolver>, handed: seq<seq<Bytes>>, r: Resolver, h: seq<Bytes>, signer: Uuid)
    requires |handed| == |resolvers|
    ensures Taken(resolvers + [r], handed + [h], signer)
         == Taken(resolvers, handed, signer) + (if r.signer == signer then h + Left(r) else [])
  {
    assert (resolvers + [r])[..|resolvers|] == resolvers && (handed + [h])[..|handed|] == handed;
  }

  /** Replacing a resolver by one that has taken the same changes nothing. */
  lemma {:induction false} TakenSame(resolvers: seq<Resolver>, handed: seq<seq<Bytes>>, i: nat, r: Resolver,
                                     h: seq<Bytes>, signer: Uuid)
    requires |handed| == |resolvers| && i < |resolvers| && r.signer == resolvers[i].signer
    requires h + Left(r) == handed[i] + Left(resolvers[i])
    ensures Taken(resolvers[i := r], handed[i := h], signer) == Taken(resolvers, handed, signer)
    decreases |resolvers|
  {
    var n := |resolvers| - 1;
    if i < n {
      TakenSame(resolvers[..n], handed[..n], i, r, h, signer);
      assert resolvers[i := r][..n] == resolvers[..n][i := r] && handed[i := h][..n] == handed[..n][i := h];
    } else {
      assert resolvers[i := r][..n] == resolvers[..n] && handed[i := h][..n] == handed[..n];
    }
  }

  /** What the newest resolver of a signer takes comes last. */
  lemma {:induction false} TakenMore(resolvers: seq<Resolver>, handed: seq<seq<Bytes>>, i: nat, r: Resolver)
    requires |handed| == |resolvers| && i < |resolvers| && r.signer == resolvers[i].signer
    requires handed[i] + Left(resolvers[i]) == []
    requires forall j | i < j < |resolvers| :: resolvers[j].signer != r.signer
    ensures Taken(resolvers[i := r], handed, r.signer)
         == Taken(resolvers, handed, r.signer) + (handed[i] + Left(r))
    decreases |resolvers|
  {
    var n := |resolvers| - 1;
    if i < n {
      TakenMore(resolvers[..n], handed[..n], i, r);
      assert resolvers[i := r][..n] == resolvers[..n][i := r];
    } else {
      assert resolvers[i := r][..n] == resolvers[..n];
    }
  }

  lemma {:induction false} TakenOther(resolvers: seq<Resolver>, handed: seq<seq<Bytes>>, i: nat, r: Resolver,
                                      signer: Uuid)
    requires |handed| == |resolvers| && i < |resolvers| && r.signer == resolvers[i].signer != signer
    ensures Taken(resolvers[i := r], handed, signer) == Taken(resolvers, handed, signer)
    decreases |resolvers|
  {
    var n := |resolvers| - 1;
    if i < n {
      TakenOther(resolvers[..n], handed[..n], i, r, signer);
      assert resolvers[i := r][..n] == resolvers[..n][i := r];
    } else {
      assert resolvers[i := r][..n] == resolvers[..n];
    }
  }

  // ---------------------------------------------------------------- every step keeps the order

  lemma ArriveNewest(y: System, log: Log, q: Request)
    requires Inv(y) && Ordered(y, log)
    ensures NewestDrains(Arrive(y, q).resolvers, Noted(y, log, DoArrive(q)).handed)
  {
  }

  lemma ArriveOrdered(y: System, log: Log, q: Request)
    requires Inv(y) && Ordered(y, log)
    ensures Ordered(Arrive(y, q), Noted(y, log, DoArrive(q)))
  {
    ArriveNewest(y, log, q);
    forall signer ensures InOrder(Arrive(y, q), Noted(y, log, DoArrive(q)), signer) {
      assert InOrder(y, log, signer);
      if !Refuses(y.limits, y.store, q.signer) { AcceptedInOrder(y, log, q, signer); }
    }
  }

  lemma AcceptedInOrder(y: System, log: Log, q: Request, signer: Uuid)
    requires |log.handed| == |y.resolvers| && InOrder(y, log, signer) && !Refuses(y.limits, y.store, q.signer)
    ensures InOrder(Arrive(y, q), Noted(y, log, DoArrive(q)), signer)
  {
    var y', log' := Arrive(y, q), Noted(y, log, DoArrive(q));
    OfSnoc(log.accepted, q, signer);
    TakenSnoc(y.resolvers, log.handed, Resolver(q.signer, Owed, false, false), [], signer);
    assert Taken(y'.resolvers, log'.handed, signer) == Taken(y.resolvers, log.handed, signer);
    Regroup(Taken(y.resolvers, log.handed, signer), Queue(y.store, signer), [q.message]);
  }

  lemma TakeOrdered(y: System, log: Log, i: nat)
    requires Ordered(y, log) && i < |y.resolvers| && y.resolvers[i].phase.Draining?
    ensures Ordered(Take(y, i), log)
  {
    var y' := Take(y, i);
    var r, r' := y.resolvers[i], y'.resolvers[i];
    forall signer ensures InOrder(y', log, signer) {
      assert InOrder(y, log, signer);
      if signer == r.signer {
        TakenMore(y.resolvers, log.handed, i, r');
        assert log.handed[i] + Left(r') == Queue(y.store, signer);
        assert Queue(y'.store, signer) == [];
      } else {
        TakenOther(y.resolvers, log.handed, i, r', signer);
      }
    }
  }

  /** A resolver that hands a message on, or moves without touching any. */
  lemma MoveOrdered(y: System, log: Log, i: nat, answer: bool)
    requires Ordered(y, log) && i < |y.resolvers| && !y.resolvers[i].phase.Draining?
    requires !y.resolvers[i].phase.Finished?
    ensures Ordered(Resolve(y, i, answer), Noted(y, log, DoResolve(i, answer)))
  {
    var y', log' := Resolve(y, i, answer), Noted(y, log, DoResolve(i, answer));
    var r, r' := y.resolvers[i], y'.resolvers[i];
    HandsOnFirst(y, log, i, answer);
    assert y'.resolvers == y.resolvers[i := r'] && log'.handed == log.handed[i := log'.handed[i]];
    forall signer ensures InOrder(y', log', signer) {
      assert InOrder(y, log, signer);
      TakenSame(y.resolvers, log.handed, i, r', log'.handed[i], signer);
    }
  }

  lemma HandsOnFirst(y: System, log: Log, i: nat, answer: bool)
    requires |log.handed| == |y.resolvers| && i < |y.resolvers|
    requires !y.resolvers[i].phase.Draining? && !y.resolvers[i].phase.Finished?
    ensures var r, r' := y.resolvers[i], Resolve(y, i, answer).resolvers[i];
            var h' := Noted(y, log, DoResolve(i, answer)).handed[i];
            && h' + Left(r') == log.handed[i] + Left(r) && r'.signer == r.signer
            && (YetToDrain(r') ==> YetToDrain(r) && h' == log.handed[i])
  {
    var phase := y.resolvers[i].phase;
    if phase.Delivering? && phase.left != [] {
      assert [phase.left[0]] + phase.left[1..] == phase.left;
    }
  }

  lemma NextOrdered(y: System, log: Log, step: Step)
    requires Inv(y) && Ordered(y, log) && Enabled(y, step)
    ensures Ordered(Next(y, step), Noted(y, log, step))
  {
    match step
    case DoArrive(q) => ArriveOrdered(y, log, q);
    case DoResolve(i, answer) =>
      if y.resolvers[i].phase.Draining? { TakeOrdered(y, log, i); } else { MoveOrdered(y, log, i, answer); }
    case DoStop =>
      forall signer ensures InOrder(Next(y, step), log, signer) { assert InOrder(y, log, signer); }
  }

  lemma {:induction false} RunOrdered(y: System, log: Log, steps: seq<Step>, y': System)
    requires Inv(y) && Ordered(y, log) && Run(y, steps, y')
    ensures Ordered(y', LogOf(y, log, steps, y'))
    decreases steps
  {
    if steps != [] {
      NextInv(y, steps[0]);
      NextOrdered(y, log, steps[0]);
      RunOrdered(Next(y, steps[0]), Noted(y, log, steps[0]), steps[1..], y');
    }
  }

  // ---------------------------------------------------------------- results

  /** In every reachable state and for every signer: what its resolvers handed on and still hold,
      resolver by resolver, followed by what waits, is exactly what was accepted from it, in the
      order it arrived. */
  lemma ArrivalOrderKept(limits: Limits, steps: seq<Step>, y: System, signer: Uuid)
    requires Run(Init(limits), steps, y)
    ensures var log := LogOf(Init(limits), NOTHING_YET, steps, y);
            && |log.handed| == |y.resolvers|
            && Of(log.accepted, signer) == Taken(y.resolvers, log.handed, signer) + Queue(y.store, signer)
  {
    InitInv(limits);
    RunOrdered(Init(limits), NOTHING_YET, steps, y);
    assert InOrder(y, LogOf(Init(limits), NOTHING_YET, steps, y), signer);
  }

  /** How often q was handed on. */
  function HandedOn(resolvers: seq<Resolver>, handed: seq<seq<Bytes>>, q: Request): nat
    requires |handed| == |resolvers|
  {
    if resolvers == [] then 0
    else (if resolvers[0].signer == q.signer then Occurrences(q.message, handed[0]) else 0)
         + HandedOn(resolvers[1..], handed[1..], q)
  }

  lemma {:induction false} HandedOnAppend(resolvers: seq<Resolver>, handed: seq<seq<Bytes>>, r: Resolver, q: Request)
    requires |handed| == |resolvers|
    ensures HandedOn(resolvers + [r], handed + [[]], q) == HandedOn(resolvers, handed, q)
  {
    if resolvers == [] {
      assert (resolvers + [r])[1..] == [] && (handed + [[]])[1..] == [];
    } else {
      HandedOnAppend(resolvers[1..], handed[1..], r, q);
      assert (resolvers + [r])[1..] == resolvers[1..] + [r] && (handed + [[]])[1..] == handed[1..] + [[]];
    }
  }

  lemma {:induction false} HandedOnUpdate(resolvers: seq<Resolver>, handed: seq<seq<Bytes>>, i: nat, r: Resolver,
                                          more: seq<Bytes>, q: Request)
    requires |handed| == |resolvers| && i < |resolvers| && r.signer == resolvers[i].signer && |more| <= 1
    ensures HandedOn(resolvers[i := r], handed[i := handed[i] + more], q)
         == HandedOn(resolvers, handed, q) + (if more == [q.message] && r.signer == q.signer then 1 else 0)
  {
    if i > 0 {
      HandedOnUpdate(resolvers[1..], handed[1..], i - 1, r, more, q);
      assert resolvers[i := r][1..] == resolvers[1..][i - 1 := r];
      assert handed[i := handed[i] + more][1..] == handed[1..][i - 1 := handed[i] + more];
    } else {
      assert resolvers[i := r][1..] == resolvers[1..] && handed[i := handed[i] + more][1..] == handed[1..];
      if more == [] {
        assert handed[i] + more == handed[i];
      } else {
        OccurrencesAppend(q.message, handed[i], more[0]);
        assert more == [more[0]];
      }
    }
  }

  /** The log of what was handed on counts what was replayed and what was failed. */
  predicate Counted(y: System, log: Log, q: Request) {
    |log.handed| == |y.resolvers| && HandedOn(y.resolvers, log.handed, q) == y.replayed[q] + y.failed[q]
  }

  lemma NextCounted(y: System, log: Log, step: Step, q: Request)
    requires Counted(y, log, q) && Enabled(y, step)
    ensures Counted(Next(y, step), Noted(y, log, step), q)
  {
    match step
    case DoArrive(a) => HandedOnAppend(y.resolvers, log.handed, Resolver(a.signer, Owed, false, false), q);
    case DoStop =>
    case DoResolve(i, answer) =>
      var phase, r' := y.resolvers[i].phase, Resolve(y, i, answer).resolvers[i];
      var more := if phase.Delivering? && phase.left != [] then [phase.left[0]] else [];
      HandedOnUpdate(y.resolvers, log.handed, i, r', more, q);
      assert log.handed[i := log.handed[i]] == log.handed;
      assert more == [] ==> log.handed[i] + more == log.handed[i];
  }

  lemma {:induction false} RunCounted(y: System, log: Log, steps: seq<Step>, y': System, q: Request)
    requires Counted(y, log, q) && Run(y, steps, y')
    ensures Counted(y', LogOf(y, log, steps, y'), q)
    decreases steps
  {
    if steps != [] {
      NextCounted(y, log, steps[0], q);
      RunCounted(Next(y, steps[0]), Noted(y, log, steps[0]), steps[1..], y', q);
    }
  }

  /** In every reachable state the messages handed on are exactly those replayed or failed. */
  lemma HandedOnIsSettled(limits: Limits, steps: seq<Step>, y: System, q: Request)
    requires Run(Init(limits), steps, y)
    ensures var log := LogOf(Init(limits), NOTHING_YET, steps, y);
            |log.handed| == |y.resolvers| && HandedOn(y.resolvers, log.handed, q) == y.replayed[q] + y.failed[q]
  {
    RunCounted(Init(limits), NOTHING_YET, steps, y, q);
  }

  /** A message is refused if and only if the queue is stopping or taking it in would break a
      limit. */
  lemma RefusedIffOver(limits: Limits, steps: seq<Step>, y: System, q: Request)
    requires Run(Init(limits), steps, y)
    ensures Arrive(y, q).rejected != y.rejected
       <==> y.store.stopping || !WithinLimits(limits, Enqueued(y.store, q.signer, q.message))
    ensures Arrive(y, q).rejected == y.rejected <==> Arrive(y, q).accepted == y.accepted + multiset{q}
  {
    InitInv(limits);
    RunInv(Init(limits), steps, y);
    var st := Enqueued(y.store, q.signer, q.message);
    assert q.signer in st.pending && |st.pending[q.signer].messages| == |Queue(y.store, q.signer)| + 1;
    assert (y.rejected + multiset{q})[q] == y.rejected[q] + 1;
    assert (y.accepted + multiset{q})[q] == y.accepted[q] + 1;
  }
}
