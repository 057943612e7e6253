/** Further properties of every run of the key-negotiation protocol: capacity, no orphaned
    initiator, and agreement on the lifetime of a key. */
module AesTheorems {
  import opened Common
  import opened AesNegotiation
  import opened AesProtocol

  // ---------------------------------------------------------------- exclusivity and capacity

  lemma DeliverWithinLimits(c: Crypto, w: World, env: Envelope, now: int, ephemeral: nat, n: NodeId)
    requires Inv(c, w) && n in w.nodes && env.destination in w.nodes
    ensures WithinLimits(w.nodes[n], Delivered(c, w, env, now, ephemeral).nodes[n])
  {
    if env.destination == n {
      HandleKeeps(c, n, w.nodes[n], env.sender, env.payload, now, ephemeral);
    }
  }

  lemma BeginWithinLimits(c: Crypto, w: World, m: NodeId, peer: NodeId, requestedMs: nat, now: int,
                          keyId: Uuid, ephemeral: nat, n: NodeId)
    requires Inv(c, w) && n in w.nodes && m in w.nodes
    ensures WithinLimits(w.nodes[n], Begun(c, w, m, peer, requestedMs, now, keyId, ephemeral).nodes[n])
  {
    if m == n {
      BeginKeeps(c, n, w.nodes[n], peer, requestedMs, now, keyId, ephemeral);
    }
  }

  lemma SweepWithinLimits(c: Crypto, w: World, m: NodeId, now: int, n: NodeId)
    requires Inv(c, w) && n in w.nodes && m in w.nodes
    ensures WithinLimits(w.nodes[n], Swept(w, m, now).nodes[n])
  {
    if m == n {
      assert NodeOk(c, w.sessions, n, w.nodes[n]);
      ForgetsKeeps(w.nodes[n], Sweep(w.nodes[n], now));
    }
  }

  lemma LocalDropWithinLimits(c: Crypto, w: World, m: NodeId, peer: NodeId, reason: string, n: NodeId)
    requires Inv(c, w) && n in w.nodes && m in w.nodes
    ensures WithinLimits(w.nodes[n], Dropped(w, m, peer, reason).nodes[n])
  {
    if m == n {
      assert NodeOk(c, w.sessions, n, w.nodes[n]);
      LocalDropKeeps(n, w.nodes[n], peer, reason);
    }
  }

  lemma SetLimitsWithinLimits(w: World, m: NodeId, limits: Limits, n: NodeId)
    requires n in w.nodes && m in w.nodes
    ensures WithinLimits(w.nodes[n], Limited(w, m, limits).nodes[n])
  {
  }

  /** A map that a step makes larger is within the limit then in force. */
  lemma StepWithinLimits(c: Crypto, w: World, step: Step, n: NodeId)
    requires Inv(c, w) && n in w.nodes
    ensures WithinLimits(w.nodes[n], Next(c, w, step).nodes[n])
  {
    match step
    case StepBegin(m, peer, requestedMs, now, keyId, ephemeral) =>
      if m in w.nodes { BeginWithinLimits(c, w, m, peer, requestedMs, now, keyId, ephemeral, n); }
    case StepDeliver(env, now, ephemeral) =>
      if env.destination in w.nodes { DeliverWithinLimits(c, w, env, now, ephemeral, n); }
    case _ => LocalStepWithinLimits(c, w, step, n);
  }

  lemma LocalStepWithinLimits(c: Crypto, w: World, step: Step, n: NodeId)
    requires Inv(c, w) && n in w.nodes && !step.StepBegin? && !step.StepDeliver?
    ensures WithinLimits(w.nodes[n], Next(c, w, step).nodes[n])
  {
    match step
    case StepSweep(m, now) =>
      if m in w.nodes { SweepWithinLimits(c, w, m, now, n); }
    case StepLocalDrop(m, peer, reason) =>
      if m in w.nodes { LocalDropWithinLimits(c, w, m, peer, reason, n); }
    case StepSetLimits(m, limits) =>
      if m in w.nodes { SetLimitsWithinLimits(w, m, limits, n); }
    case StepLose(_) =>
  }

  ghost predicate LimitsFixed(steps: seq<Step>) {
    forall i | 0 <= i < |steps| :: !steps[i].StepSetLimits?
  }

  lemma StepKeepsLimits(c: Crypto, w: World, step: Step, n: NodeId)
    requires n in w.nodes && !step.StepSetLimits?
    ensures n in Next(c, w, step).nodes && Next(c, w, step).nodes[n].limits == w.nodes[n].limits
  {
    if step.StepDeliver? && step.env.destination == n {
      HandleKeepsLimits(c, n, w.nodes[n], step.env.sender, step.env.payload, step.now, step.ephemeral);
    }
  }

  lemma {:induction false} RunKeepsLimits(c: Crypto, w: World, steps: seq<Step>, n: NodeId)
    requires n in w.nodes && LimitsFixed(steps)
    ensures n in Run(c, w, steps).nodes && Run(c, w, steps).nodes[n].limits == w.nodes[n].limits
  {
    if steps != [] {
      var before := steps[..|steps| - 1];
      RunKeepsLimits(c, w, before, n);
      StepKeepsLimits(c, Run(c, w, before), steps[|steps| - 1], n);
    }
  }

  /** In every run no peer is both pending and active at a node. */
  lemma AlwaysExclusive(c: Crypto, w: World, steps: seq<Step>, n: NodeId)
    requires Init(w) && n in Run(c, w, steps).nodes
    ensures Exclusive(Run(c, w, steps).nodes[n])
  {
    RunInv(c, w, steps);
  }

  predicate Bounded(st: NodeState) {
    |st.active| <= st.limits.maxActiveKeys && |st.pending| <= st.limits.maxPendingNegotiations
  }

  /** While the limits stay as they were, neither map ever exceeds its limit. */
  lemma {:induction false} AlwaysBounded(c: Crypto, w: World, steps: seq<Step>, n: NodeId)
    requires Init(w) && n in w.nodes && LimitsFixed(steps)
    ensures n in Run(c, w, steps).nodes && Bounded(Run(c, w, steps).nodes[n])
  {
    RunKeepsLimits(c, w, steps, n);
    if steps != [] {
      var before := steps[..|steps| - 1];
      AlwaysBounded(c, w, before, n);
      RunInv(c, w, before);
      RunKeepsLimits(c, w, before, n);
      StepWithinLimits(c, Run(c, w, before), steps[|steps| - 1], n);
    }
  }

  // ---------------------------------------------------------------- no orphaned initiator

  predicate HoldsAt(st: NodeState, q: NodeId, k: Bytes) {
    q in st.active && st.active[q].keyId == k
  }

  predicate AwaitsAt(st: NodeState, q: NodeId, k: Bytes) {
    q in st.pending && st.pending[q].keyId == k
  }

  predicate Holds(w: World, n: NodeId, q: NodeId, k: Bytes) {
    n in w.nodes && HoldsAt(w.nodes[n], q, k)
  }

  predicate Awaits(w: World, n: NodeId, q: NodeId, k: Bytes) {
    n in w.nodes && AwaitsAt(w.nodes[n], q, k)
  }

  predicate ReplyInFlight(c: Crypto, w: World, k: Bytes)
    requires k in w.sessions
  {
    w.sessions[k].answer.Some? && ReplyEnvelope(c, k, w.sessions[k]) in w.network
  }

  /** A notification that the responder dropped k is on its way to the initiator. */
  predicate IsDrop(s: Session, k: Bytes, env: Envelope) {
    env.sender == Some(s.responder) && env.destination == s.initiator
    && env.payload.Drop? && env.payload.keyId == Some(k)
  }

  predicate DropInFlight(w: World, k: Bytes)
    requires k in w.sessions
  {
    exists env | env in w.network :: IsDrop(w.sessions[k], k, env)
  }

  /** An initiator that holds k, or will once the reply arrives, has a responder that holds k,
      or is about to be told otherwise. */
  predicate NoOrphan(c: Crypto, w: World, k: Bytes)
    requires k in w.sessions
  {
    var s := w.sessions[k];
    Holds(w, s.initiator, s.responder, k) || (Awaits(w, s.initiator, s.responder, k) && ReplyInFlight(c, w, k))
    ==> Holds(w, s.responder, s.initiator, k) || DropInFlight(w, k)
  }

  predicate Abandoned(w: World, k: Bytes)
    requires k in w.sessions
  {
    var s := w.sessions[k];
    !Holds(w, s.initiator, s.responder, k) && !Awaits(w, s.initiator, s.responder, k)
  }

  /** A message that makes its receiver forget an active key without a word. */
  predicate Silences(p: Payload) {
    p.Drop? || (p.Error? && p.code in {KeyIncorrect, UnknownKey, Expired})
  }

  /** Whenever such a message travels from the initiator of k to the responder, the initiator
      has given k up. */
  predicate Justified(w: World, env: Envelope) {
    Silences(env.payload) && env.payload.keyId.Some? && env.payload.keyId.value in w.sessions
    && env.sender == Some(w.sessions[env.payload.keyId.value].initiator)
    && env.destination == w.sessions[env.payload.keyId.value].responder
    ==> Abandoned(w, env.payload.keyId.value)
  }

  ghost predicate Orphanless(c: Crypto, w: World) {
    && (forall k | k in w.sessions :: NoOrphan(c, w, k))
    && (forall env | env in w.network :: Justified(w, env))
  }

  /** A node at most forgets entries; the conditions under which nobody is orphaned by it. */
  lemma ForgetsOrphanless(c: Crypto, w: World, n: NodeId, st': NodeState, network: multiset<Envelope>)
    requires Orphanless(c, w) && n in w.nodes && Forgets(w.nodes[n], st')
    requires var w' := World(w.nodes[n := st'], network, w.sessions);
             && (forall e | e in network :: e in w.network || (!e.payload.Reply? && Justified(w', e)))
             && (forall k | k in w.sessions ::
                   DropInFlight(w, k) || Holds(w, w.sessions[k].responder, w.sessions[k].initiator, k)
                   ==> || DropInFlight(w', k)
                       || Holds(w', w.sessions[k].responder, w.sessions[k].initiator, k)
                       || Abandoned(w', k))
    ensures Orphanless(c, World(w.nodes[n := st'], network, w.sessions))
  {
    var w' := World(w.nodes[n := st'], network, w.sessions);
    forall k | k in w'.sessions
      ensures NoOrphan(c, w', k)
      ensures Abandoned(w, k) ==> Abandoned(w', k)
    {
      assert NoOrphan(c, w, k);
    }
    forall env | env in network
      ensures Justified(w', env)
    {
      if env in w.network { assert Justified(w, env); }
    }
  }

  /** Nodes that drop keys and tell each peer so orphan nobody. */
  lemma DropsOrphanless(c: Crypto, w: World, n: NodeId, st': NodeState, drops: multiset<Envelope>)
    requires Orphanless(c, w) && n in w.nodes && Forgets(w.nodes[n], st')
    requires forall q | q in w.nodes[n].active && q !in st'.active ::
               exists e | e in drops :: e.sender == Some(n) && e.destination == q
                                        && e.payload.Drop? && e.payload.keyId == Some(w.nodes[n].active[q].keyId)
    requires forall e | e in drops :: e.sender == Some(n) && e.destination !in st'.active
                                      && e.destination !in st'.pending && e.payload.Drop?
    ensures Orphanless(c, World(w.nodes[n := st'], w.network + drops, w.sessions))
  {
    var w' := World(w.nodes[n := st'], w.network + drops, w.sessions);
    forall k | k in w.sessions && (DropInFlight(w, k) || Holds(w, w.sessions[k].responder, w.sessions[k].initiator, k))
      ensures || DropInFlight(w', k) || Holds(w', w.sessions[k].responder, w.sessions[k].initiator, k)
              || Abandoned(w', k)
    {
      var s := w.sessions[k];
      if DropInFlight(w, k) {
        var env :| env in w.network && IsDrop(s, k, env);
        assert env in w'.network;
      } else if n == s.responder && s.initiator !in st'.active {
        var e :| e in drops && e.sender == Some(n) && e.destination == s.initiator
                 && e.payload.Drop? && e.payload.keyId == Some(w.nodes[n].active[s.initiator].keyId);
        assert IsDrop(s, k, e) && e in w'.network;
      }
    }
    ForgetsOrphanless(c, w, n, st', w.network + drops);
  }

  lemma LocalDropOrphanless(c: Crypto, w: World, n: NodeId, peer: NodeId, reason: string)
    requires Inv(c, w) && Orphanless(c, w) && n in w.nodes
    ensures Orphanless(c, Dropped(w, n, peer, reason))
  {
    var o := LocalDrop(n, w.nodes[n], peer, reason);
    if peer in w.nodes[n].active { assert o.out.value in Sent(o.out); }
    DropsOrphanless(c, w, n, o.state, Sent(o.out));
  }

  lemma SweepOrphanless(c: Crypto, w: World, n: NodeId, now: int)
    requires Inv(c, w) && Orphanless(c, w) && n in w.nodes
    ensures Orphanless(c, Swept(w, n, now))
  {
    assert NodeOk(c, w.sessions, n, w.nodes[n]);
    SweepTells(c, w.sessions, n, w.nodes[n], now);
    DropsOrphanless(c, w, n, Sweep(w.nodes[n], now), multiset(SweepDrops(n, w.nodes[n], now)));
  }

  lemma SweepTells(c: Crypto, ss: Sessions, n: NodeId, st: NodeState, now: int)
    requires NodeOk(c, ss, n, st)
    ensures var st' := Sweep(st, now);
            var drops := multiset(SweepDrops(n, st, now));
            && Forgets(st, st')
            && (forall q | q in st.active && q !in st'.active ::
                  DropTo(n, q, st.active[q].keyId, "expired") in drops)
            && (forall e | e in drops :: e.sender == Some(n) && e.destination !in st'.active
                                         && e.destination !in st'.pending && e.payload.Drop?)
  {
    forall q | q in st.active && q !in Sweep(st, now).active
      ensures DropTo(n, q, st.active[q].keyId, "expired") in multiset(SweepDrops(n, st, now))
    {
      assert DropTo(n, q, st.active[q].keyId, "expired") in SweepDrops(n, st, now);
    }
  }

  /** What taking in env from q, and at most forgetting entries, does at a node: an active key
      goes only if env silences it, and then it does go, a drop ends the wait for it, and an answer that silences a key
      comes from a node that no longer has it. */
  ghost predicate Receives(env: Envelope, n: NodeId, q: NodeId, st: NodeState, st': NodeState, out: Option<Envelope>) {
    && Forgets(st, st')
    && (forall x, k :: HoldsAt(st, x, k) && !HoldsAt(st', x, k) ==>
                       x == q && Silences(env.payload) && env.payload.keyId == Some(k))
    && (Silences(env.payload) && env.payload.keyId.Some? ==> !HoldsAt(st', q, env.payload.keyId.value))
    && (env.payload.Drop? && env.payload.keyId.Some? ==> !AwaitsAt(st', q, env.payload.keyId.value))
    && (out.Some? ==>
          && out.value.sender == Some(n) && out.value.destination == q
          && out.value.payload.Error? && out.value.payload.keyId == env.payload.keyId
          && (Silences(out.value.payload) && env.payload.keyId.Some? ==>
                !HoldsAt(st', q, env.payload.keyId.value) && !AwaitsAt(st', q, env.payload.keyId.value)))
  }

  lemma ReceivesOrphanless(c: Crypto, w: World, env: Envelope, n: NodeId, q: NodeId, st': NodeState,
                           out: Option<Envelope>)
    requires Orphanless(c, w) && env in w.network && n in w.nodes
    requires n == env.destination && env.sender == Some(q)
    requires Receives(env, n, q, w.nodes[n], st', out)
    ensures Orphanless(c, World(w.nodes[n := st'], w.network - multiset{env} + Sent(out), w.sessions))
  {
    var network := w.network - multiset{env} + Sent(out);
    var w' := World(w.nodes[n := st'], network, w.sessions);
    forall k | k in w.sessions && (DropInFlight(w, k) || Holds(w, w.sessions[k].responder, w.sessions[k].initiator, k))
      ensures || DropInFlight(w', k) || Holds(w', w.sessions[k].responder, w.sessions[k].initiator, k)
              || Abandoned(w', k)
    {
      var s := w.sessions[k];
      if DropInFlight(w, k) {
        var e :| e in w.network && IsDrop(s, k, e);
        if e != env { assert e in network; }
      } else if !Holds(w', s.responder, s.initiator, k) {
        assert HoldsAt(w.nodes[n], s.initiator, k) && !HoldsAt(st', s.initiator, k);
        assert Justified(w, env);
      }
    }
    ForgetsOrphanless(c, w, n, st', network);
  }

  lemma DropReceives(self: NodeId, st: NodeState, env: Envelope, q: NodeId)
    requires Exclusive(st) && env.payload.Drop? && ValidKeyId(env.payload.keyId)
    ensures var o := HandleDrop(self, st, q, env.payload); Receives(env, self, q, st, o.state, o.out)
  {
  }

  lemma ErrorReceives(self: NodeId, st: NodeState, env: Envelope, q: NodeId)
    requires env.payload.Error? && ValidKeyId(env.payload.keyId)
    ensures Receives(env, self, q, st, HandleError(st, q, env.payload), None)
  {
  }

  lemma RefusedRequestReceives(c: Crypto, self: NodeId, st: NodeState, env: Envelope, q: NodeId, now: int,
                               ephemeral: nat)
    requires env.payload.Request? && RequestRefusal(c, st, q, env.payload, ephemeral).Some?
    ensures var o := HandleRequest(c, self, st, q, env.payload, now, ephemeral);
            Receives(env, self, q, st, o.state, o.out)
  {
  }

  /** k is not yet active at the initiator while its reply is in flight. */
  lemma RefusedReplyReceives(c: Crypto, self: NodeId, st: NodeState, env: Envelope, q: NodeId, now: int)
    requires env.payload.Reply? && ReplyRefusal(c, st, q, env.payload).Some?
    requires ValidKeyId(env.payload.keyId) && !HoldsAt(st, q, env.payload.keyId.value)
    ensures var o := HandleReply(c, self, st, q, env.payload, now);
            Receives(env, self, q, st, o.state, o.out)
  {
  }

  /** How the world moves when a key is asked for, granted or confirmed, as far as orphans are
      concerned: key k aside, what nodes hold is unchanged, nothing new is awaited or sent, and
      no message disappears; no silencing message about k disappears either. */
  ghost predicate Touches(c: Crypto, w: World, w': World, k: Bytes) {
    && k in w'.sessions
    && (forall j | j in w'.sessions && j != k :: j in w.sessions && w'.sessions[j] == w.sessions[j])
    && (forall n, q, j | j != k :: Holds(w', n, q, j) == Holds(w, n, q, j))
    && (forall n, q, j | j != k :: Awaits(w', n, q, j) ==> Awaits(w, n, q, j))
    && (forall e | e in w'.network :: e in w.network || (e.payload.keyId == Some(k) && !Silences(e.payload)))
    && (forall e | e in w.network && (Silences(e.payload) || e.payload.keyId != Some(k)) :: e in w'.network)
  }

  lemma TouchesOrphanless(c: Crypto, w: World, w': World, k: Bytes)
    requires Orphanless(c, w) && Touches(c, w, w', k) && NoOrphan(c, w', k)
    requires forall e | e in w'.network && e.payload.keyId == Some(k) :: Justified(w', e)
    ensures Orphanless(c, w')
  {
    forall j | j in w'.sessions
      ensures NoOrphan(c, w', j)
    {
      if j != k {
        assert NoOrphan(c, w, j);
        if DropInFlight(w, j) {
          var e :| e in w.network && IsDrop(w.sessions[j], j, e);
          assert e in w'.network;
        }
      }
    }
    forall e | e in w'.network
      ensures Justified(w', e)
    {
      if e.payload.keyId != Some(k) { assert Justified(w, e); }
    }
  }

  lemma OpensTouches(c: Crypto, w: World, w': World, n: NodeId, q: NodeId, k: Bytes, s: Session, entry: Pending)
    requires n in w.nodes && k !in w.sessions && entry.keyId == k && q !in w.nodes[n].pending
    requires w' == World(w.nodes[n := w.nodes[n].(pending := w.nodes[n].pending[q := entry])],
                         w.network + multiset{RequestEnvelope(c, k, s)}, w.sessions[k := s])
    ensures Touches(c, w, w', k)
  {
    forall m, x, j | j != k
      ensures Holds(w', m, x, j) == Holds(w, m, x, j)
      ensures Awaits(w', m, x, j) ==> Awaits(w, m, x, j)
    {
    }
  }

  lemma OpensOrphanless(c: Crypto, w: World, w': World, n: NodeId, q: NodeId, k: Bytes, s: Session, entry: Pending)
    requires Inv(c, w) && Orphanless(c, w) && n in w.nodes && k !in w.sessions
    requires s.initiator == n && s.responder == q && s.answer.None? && entry.keyId == k
    requires q !in w.nodes[n].pending
    requires w' == World(w.nodes[n := w.nodes[n].(pending := w.nodes[n].pending[q := entry])],
                         w.network + multiset{RequestEnvelope(c, k, s)}, w.sessions[k := s])
    ensures Orphanless(c, w')
  {
    OpensTouches(c, w, w', n, q, k, s, entry);
    assert !Holds(w', n, q, k) by {
      assert NodeOk(c, w.sessions, n, w.nodes[n]);
    }
    assert forall e | e in w.network :: EnvelopeOk(c, w.sessions, e) && e.payload.keyId != Some(k);
    TouchesOrphanless(c, w, w', k);
  }

  lemma AnswersTouches(c: Crypto, w: World, w': World, env: Envelope, n: NodeId, q: NodeId,
                       k: Bytes, s': Session, key: Active)
    requires env in w.network && n in w.nodes && k in w.sessions && s'.answer.Some?
    requires env.payload.Request? && env.payload.keyId == Some(k) && key.keyId == k && q !in w.nodes[n].active
    requires w' == World(w.nodes[n := w.nodes[n].(active := w.nodes[n].active[q := key])],
                         w.network - multiset{env} + multiset{ReplyEnvelope(c, k, s')}, w.sessions[k := s'])
    ensures Touches(c, w, w', k)
  {
    forall m, x, j | j != k
      ensures Holds(w', m, x, j) == Holds(w, m, x, j)
      ensures Awaits(w', m, x, j) ==> Awaits(w, m, x, j)
    {
    }
  }

  lemma AnswersOrphanless(c: Crypto, w: World, w': World, env: Envelope, n: NodeId, q: NodeId,
                          k: Bytes, s': Session, key: Active)
    requires Orphanless(c, w) && env in w.network && n in w.nodes && k in w.sessions
    requires env.payload.Request? && env.payload.keyId == Some(k) && key.keyId == k && q !in w.nodes[n].active && q != n
    requires s'.initiator == w.sessions[k].initiator == q && s'.responder == w.sessions[k].responder == n
    requires s'.answer.Some?
    requires w' == World(w.nodes[n := w.nodes[n].(active := w.nodes[n].active[q := key])],
                         w.network - multiset{env} + multiset{ReplyEnvelope(c, k, s')}, w.sessions[k := s'])
    ensures Orphanless(c, w')
  {
    AnswersTouches(c, w, w', env, n, q, k, s', key);
    assert Holds(w', n, q, k);
    forall e | e in w'.network && e.payload.keyId == Some(k)
      ensures Justified(w', e)
    {
      if e in w.network { assert Justified(w, e); }
    }
    TouchesOrphanless(c, w, w', k);
  }

  lemma ConfirmsTouches(c: Crypto, w: World, w': World, env: Envelope, n: NodeId, q: NodeId,
                        k: Bytes, s': Session, key: Active)
    requires env in w.network && n in w.nodes && k in w.sessions
    requires env.payload.Reply? && env.payload.keyId == Some(k) && key.keyId == k && q !in w.nodes[n].active
    requires w' == World(w.nodes[n := w.nodes[n].(active := w.nodes[n].active[q := key],
                                                  pending := w.nodes[n].pending - {q})],
                         w.network - multiset{env}, w.sessions[k := s'])
    ensures Touches(c, w, w', k)
  {
    forall m, x, j | j != k
      ensures Holds(w', m, x, j) == Holds(w, m, x, j)
      ensures Awaits(w', m, x, j) ==> Awaits(w, m, x, j)
    {
    }
  }

  lemma ConfirmsOrphanless(c: Crypto, w: World, w': World, env: Envelope, n: NodeId, q: NodeId,
                           k: Bytes, s': Session, key: Active)
    requires Orphanless(c, w) && env in w.network && n in w.nodes && k in w.sessions && ReplyInFlight(c, w, k)
    requires env.payload.Reply? && env.payload.keyId == Some(k) && key.keyId == k && AwaitsAt(w.nodes[n], q, k)
    requires q !in w.nodes[n].active && q != n
    requires w.sessions[k].initiator == n && w.sessions[k].responder == q
    requires s' == w.sessions[k].(confirmation := s'.confirmation)
    requires w' == World(w.nodes[n := w.nodes[n].(active := w.nodes[n].active[q := key],
                                                  pending := w.nodes[n].pending - {q})],
                         w.network - multiset{env}, w.sessions[k := s'])
    ensures Orphanless(c, w')
  {
    ConfirmsTouches(c, w, w', env, n, q, k, s', key);
    assert NoOrphan(c, w, k);
    assert Holds(w', q, n, k) == Holds(w, q, n, k);
    if DropInFlight(w, k) {
      var e :| e in w.network && IsDrop(w.sessions[k], k, e);
      assert e in w'.network && IsDrop(s', k, e);
    }
    forall e | e in w'.network && e.payload.keyId == Some(k)
      ensures Justified(w', e)
    {
      assert Justified(w, e);
    }
    TouchesOrphanless(c, w, w', k);
  }

  lemma BeginOrphanless(c: Crypto, w: World, n: NodeId, peer: NodeId, requestedMs: nat, now: int,
                        keyId: Uuid, ephemeral: nat)
    requires Inv(c, w) && Orphanless(c, w) && n in w.nodes && keyId !in w.sessions
    ensures Orphanless(c, Begun(c, w, n, peer, requestedMs, now, keyId, ephemeral))
  {
    var o := Begin(c, n, w.nodes[n], peer, requestedMs, now, keyId, ephemeral);
    if o.out.Some? {
      var s := Session(n, peer, ephemeral, ClampLifetime(requestedMs, w.nodes[n].limits), None, None);
      OpensOrphanless(c, w, Begun(c, w, n, peer, requestedMs, now, keyId, ephemeral),
                      n, peer, keyId, s, o.state.pending[peer]);
    }
  }

  lemma DeliverRequestOrphanless(c: Crypto, w: World, env: Envelope, now: int, ephemeral: nat)
    requires Inv(c, w) && Orphanless(c, w) && env in w.network && env.destination in w.nodes && env.payload.Request?
    ensures Orphanless(c, Delivered(c, w, env, now, ephemeral))
  {
    assert EnvelopeOk(c, w.sessions, env);
    var n, q, k := env.destination, env.sender.value, env.payload.keyId.value;
    var w' := Delivered(c, w, env, now, ephemeral);
    var o := HandleRequest(c, n, w.nodes[n], q, env.payload, now, ephemeral);
    if RequestRefusal(c, w.nodes[n], q, env.payload, ephemeral).Some? {
      RefusedRequestReceives(c, n, w.nodes[n], env, q, now, ephemeral);
      ReceivesOrphanless(c, w, env, n, q, o.state, o.out);
    } else {
      AnswersOrphanless(c, w, w', env, n, q, k, w'.sessions[k], o.state.active[q]);
    }
  }

  lemma DeliverReplyOrphanless(c: Crypto, w: World, env: Envelope, now: int, ephemeral: nat)
    requires Inv(c, w) && Orphanless(c, w) && env in w.network && env.destination in w.nodes && env.payload.Reply?
    ensures Orphanless(c, Delivered(c, w, env, now, ephemeral))
  {
    assert EnvelopeOk(c, w.sessions, env);
    var n, q, k := env.destination, env.sender.value, env.payload.keyId.value;
    var w' := Delivered(c, w, env, now, ephemeral);
    var o := HandleReply(c, n, w.nodes[n], q, env.payload, now);
    assert NodeOk(c, w.sessions, n, w.nodes[n]);
    if ReplyRefusal(c, w.nodes[n], q, env.payload).Some? {
      RefusedReplyReceives(c, n, w.nodes[n], env, q, now);
      ReceivesOrphanless(c, w, env, n, q, o.state, o.out);
    } else {
      assert w.network - multiset{env} + Sent(o.out) == w.network - multiset{env};
      ConfirmsOrphanless(c, w, w', env, n, q, k, w'.sessions[k], o.state.active[q]);
    }
  }

  lemma DeliverOtherOrphanless(c: Crypto, w: World, env: Envelope, now: int, ephemeral: nat)
    requires Inv(c, w) && Orphanless(c, w) && env in w.network && env.destination in w.nodes
    requires env.payload.Drop? || env.payload.Error?
    ensures Orphanless(c, Delivered(c, w, env, now, ephemeral))
  {
    assert EnvelopeOk(c, w.sessions, env);
    var n, q := env.destination, env.sender.value;
    assert NodeOk(c, w.sessions, n, w.nodes[n]);
    var o := Handle(c, n, w.nodes[n], env.sender, env.payload, now, ephemeral);
    if env.payload.Drop? {
      DropReceives(n, w.nodes[n], env, q);
    } else {
      ErrorReceives(n, w.nodes[n], env, q);
    }
    ReceivesOrphanless(c, w, env, n, q, o.state, o.out);
  }

  lemma DeliverOrphanless(c: Crypto, w: World, env: Envelope, now: int, ephemeral: nat)
    requires Inv(c, w) && Orphanless(c, w) && env in w.network && env.destination in w.nodes
    ensures Orphanless(c, Delivered(c, w, env, now, ephemeral))
  {
    match env.payload
    case Request(_, _, _, _) => DeliverRequestOrphanless(c, w, env, now, ephemeral);
    case Reply(_, _, _, _) => DeliverReplyOrphanless(c, w, env, now, ephemeral);
    case _ => DeliverOtherOrphanless(c, w, env, now, ephemeral);
  }

  lemma SetLimitsOrphanless(c: Crypto, w: World, n: NodeId, limits: Limits)
    requires Orphanless(c, w) && n in w.nodes
    ensures Orphanless(c, Limited(w, n, limits))
  {
    var w' := Limited(w, n, limits);
    forall k | k in w'.sessions
      ensures NoOrphan(c, w', k)
      ensures Abandoned(w, k) ==> Abandoned(w', k)
    {
      assert NoOrphan(c, w, k);
      assert DropInFlight(w, k) ==> DropInFlight(w', k);
    }
    forall e | e in w'.network
      ensures Justified(w', e)
    {
      assert Justified(w, e);
    }
  }

  lemma NextOrphanless(c: Crypto, w: World, step: Step)
    requires Inv(c, w) && Orphanless(c, w) && !step.StepLose?
    ensures Orphanless(c, Next(c, w, step))
  {
    match step
    case StepBegin(n, peer, requestedMs, now, keyId, ephemeral) =>
      if n in w.nodes && keyId !in w.sessions { BeginOrphanless(c, w, n, peer, requestedMs, now, keyId, ephemeral); }
    case StepDeliver(env, now, ephemeral) =>
      if env in w.network && env.destination in w.nodes { DeliverOrphanless(c, w, env, now, ephemeral); }
    case StepSweep(n, now) =>
      if n in w.nodes { SweepOrphanless(c, w, n, now); }
    case StepLocalDrop(n, peer, reason) =>
      if n in w.nodes { LocalDropOrphanless(c, w, n, peer, reason); }
    case StepSetLimits(n, limits) =>
      if n in w.nodes { SetLimitsOrphanless(c, w, n, limits); }
  }

  ghost predicate Lossless(steps: seq<Step>) {
    forall i | 0 <= i < |steps| :: !steps[i].StepLose?
  }

  lemma {:induction false} RunOrphanless(c: Crypto, w: World, steps: seq<Step>)
    requires Init(w) && Lossless(steps)
    ensures Orphanless(c, Run(c, w, steps))
  {
    if steps != [] {
      var before := steps[..|steps| - 1];
      RunOrphanless(c, w, before);
      RunInv(c, w, before);
      NextOrphanless(c, Run(c, w, before), steps[|steps| - 1]);
    }
  }

  /** In every run that loses no message, in whatever order messages arrive: an initiator that
      holds k active, or waits for it with the reply in flight, has a responder that holds k,
      or a drop notification for k on its way. */
  lemma NoOrphanedInitiator(c: Crypto, w: World, steps: seq<Step>, k: Bytes)
    requires Init(w) && Lossless(steps) && k in Run(c, w, steps).sessions
    ensures var r := Run(c, w, steps);
            var s := r.sessions[k];
            Holds(r, s.initiator, s.responder, k) || (Awaits(r, s.initiator, s.responder, k) && ReplyInFlight(c, r, k))
            ==> Holds(r, s.responder, s.initiator, k) || DropInFlight(r, k)
  {
    RunOrphanless(c, w, steps);
    assert NoOrphan(c, Run(c, w, steps), k);
  }

  // ---------------------------------------------------------------- lifetime agreement

  /** What each side wrote into the history is its own clamp of what the other side offered. */
  ghost predicate LifetimeOk(w: World, s: Session) {
    && s.initiator in w.nodes && InRange(s.lifetimeMs, w.nodes[s.initiator].limits)
    && (s.answer.Some? ==>
          && s.responder in w.nodes
          && s.answer.value.lifetimeMs == ClampLifetime(s.lifetimeMs, w.nodes[s.responder].limits))
    && (s.confirmation.Some? ==>
          && s.answer.Some?
          && s.confirmation.value.lifetimeMs
             == ClampLifetime(s.answer.value.lifetimeMs, w.nodes[s.initiator].limits))
  }

  ghost predicate LifetimesOk(w: World) {
    forall k | k in w.sessions :: LifetimeOk(w, w.sessions[k])
  }

  lemma LifetimeOkKept(w: World, w': World, s: Session)
    requires LifetimeOk(w, s)
    requires forall n | n in w.nodes :: n in w'.nodes && w'.nodes[n].limits == w.nodes[n].limits
    ensures LifetimeOk(w', s)
  {
  }

  lemma DeliverLifetimes(c: Crypto, w: World, env: Envelope, now: int, ephemeral: nat, k: Bytes)
    requires Inv(c, w) && LifetimesOk(w) && env in w.network && env.destination in w.nodes && k in w.sessions
    ensures LifetimeOk(w, Record(c, w, env, now, ephemeral)[k])
  {
    assert EnvelopeOk(c, w.sessions, env) && LifetimeOk(w, w.sessions[k]);
    if env.payload.Reply? && ReplyRefusal(c, w.nodes[env.destination], env.sender.value, env.payload).None? {
      ConfirmedLifetime(c, w, env);
    }
    RecordedLifetime(c, w, env, now, ephemeral, k);
  }

  lemma RecordedLifetime(c: Crypto, w: World, env: Envelope, now: int, ephemeral: nat, k: Bytes)
    requires EnvelopeOk(c, w.sessions, env) && env.destination in w.nodes
    requires k in w.sessions && LifetimeOk(w, w.sessions[k])
    requires var st, p := w.nodes[env.destination], env.payload;
             p.Reply? && ReplyRefusal(c, st, env.sender.value, p).None? ==>
               AcceptedLifetime(st, env.sender.value, p)
               == ClampLifetime(w.sessions[p.keyId.value].answer.value.lifetimeMs, st.limits)
    ensures LifetimeOk(w, Record(c, w, env, now, ephemeral)[k])
  {
  }

  /** A granted lifetime is never zero, so the initiator clamps the grant and not its own wish. */
  lemma ConfirmedLifetime(c: Crypto, w: World, env: Envelope)
    requires Inv(c, w) && LifetimesOk(w) && env.destination in w.nodes
    requires EnvelopeOk(c, w.sessions, env) && env.payload.Reply?
    requires ReplyRefusal(c, w.nodes[env.destination], env.sender.value, env.payload).None?
    ensures AcceptedLifetime(w.nodes[env.destination], env.sender.value, env.payload)
         == ClampLifetime(w.sessions[env.payload.keyId.value].answer.value.lifetimeMs, w.nodes[env.destination].limits)
  {
    var s := w.sessions[env.payload.keyId.value];
    assert LifetimeOk(w, s) && NodeOk(c, w.sessions, s.responder, w.nodes[s.responder]);
  }

  lemma BeginLifetime(c: Crypto, w: World, n: NodeId, peer: NodeId, requestedMs: nat, now: int,
                      keyId: Uuid, ephemeral: nat, k: Bytes)
    requires Inv(c, w) && LifetimesOk(w) && n in w.nodes && keyId !in w.sessions
    requires k in Begun(c, w, n, peer, requestedMs, now, keyId, ephemeral).sessions
    ensures LifetimeOk(w, Begun(c, w, n, peer, requestedMs, now, keyId, ephemeral).sessions[k])
  {
    if k in w.sessions {
      assert LifetimeOk(w, w.sessions[k]);
    } else {
      NodesAreSane(c, w, n);
      NewLifetime(w, n, peer, requestedMs, ephemeral);
    }
  }

  lemma NodesAreSane(c: Crypto, w: World, n: NodeId)
    requires Inv(c, w) && n in w.nodes
    ensures Sane(w.nodes[n].limits)
  {
    assert NodeOk(c, w.sessions, n, w.nodes[n]);
  }

  lemma NewLifetime(w: World, n: NodeId, peer: NodeId, requestedMs: nat, ephemeral: nat)
    requires n in w.nodes && Sane(w.nodes[n].limits)
    ensures LifetimeOk(w, Session(n, peer, ephemeral, ClampLifetime(requestedMs, w.nodes[n].limits), None, None))
  {
  }

  lemma QuietStep(c: Crypto, w: World, step: Step)
    requires !step.StepBegin? && !step.StepDeliver?
    ensures Next(c, w, step).sessions == w.sessions
  {
  }

  lemma BeginStepLifetime(c: Crypto, w: World, step: Step, k: Bytes)
    requires Inv(c, w) && LifetimesOk(w) && step.StepBegin? && k in Next(c, w, step).sessions
    ensures LifetimeOk(w, Next(c, w, step).sessions[k])
  {
    if step.node in w.nodes && step.keyId !in w.sessions {
      BeginLifetime(c, w, step.node, step.peer, step.requestedMs, step.now, step.keyId, step.ephemeral, k);
    }
  }

  /** Limits aside, a session after a step is one already vouched for before it. */
  lemma SessionLifetime(c: Crypto, w: World, step: Step, k: Bytes)
    requires Inv(c, w) && LifetimesOk(w) && !step.StepSetLimits? && k in Next(c, w, step).sessions
    ensures LifetimeOk(w, Next(c, w, step).sessions[k])
  {
    if step.StepBegin? {
      BeginStepLifetime(c, w, step, k);
    } else if step.StepDeliver? {
      if step.env in w.network && step.env.destination in w.nodes {
        DeliverLifetimes(c, w, step.env, step.now, step.ephemeral, k);
      }
    } else {
      QuietStep(c, w, step);
    }
  }

  lemma NextLifetimes(c: Crypto, w: World, step: Step)
    requires Inv(c, w) && LifetimesOk(w) && !step.StepSetLimits?
    ensures LifetimesOk(Next(c, w, step))
  {
    var w' := Next(c, w, step);
    forall n | n in w.nodes
      ensures n in w'.nodes && w'.nodes[n].limits == w.nodes[n].limits
    {
      StepKeepsLimits(c, w, step, n);
    }
    forall k | k in w'.sessions
      ensures LifetimeOk(w', w'.sessions[k])
    {
      SessionLifetime(c, w, step, k);
      LifetimeOkKept(w, w', w'.sessions[k]);
    }
  }

  lemma {:induction false} RunLifetimes(c: Crypto, w: World, steps: seq<Step>)
    requires Init(w) && LimitsFixed(steps)
    ensures LifetimesOk(Run(c, w, steps))
  {
    if steps != [] {
      var before := steps[..|steps| - 1];
      RunLifetimes(c, w, before);
      RunInv(c, w, before);
      NextLifetimes(c, Run(c, w, before), steps[|steps| - 1]);
    }
  }

  /** In every run that leaves the limits alone: when both ends of a session hold its key, the
      key lives equally long at both, counted from where each installed it, exactly if their
      lifetime ranges overlap, and then for a time within both ranges. */
  lemma LifetimeAgreement(c: Crypto, w: World, steps: seq<Step>, k: Bytes)
    requires Init(w) && LimitsFixed(steps)
    requires var r := Run(c, w, steps);
             && k in r.sessions
             && Holds(r, r.sessions[k].initiator, r.sessions[k].responder, k)
             && Holds(r, r.sessions[k].responder, r.sessions[k].initiator, k)
    ensures var r := Run(c, w, steps);
            var s := r.sessions[k];
            var i, j := r.nodes[s.initiator], r.nodes[s.responder];
            && s.answer.Some? && s.confirmation.Some?
            && var lived, granted := i.active[s.responder].expiresAt - s.confirmation.value.at,
                                     j.active[s.initiator].expiresAt - s.answer.value.at;
               && (lived == granted <==> RangesOverlap(i.limits, j.limits))
               && (lived == granted ==>
                     && i.limits.minLifetimeMs <= lived <= i.limits.maxLifetimeMs
                     && j.limits.minLifetimeMs <= lived <= j.limits.maxLifetimeMs)
  {
    RunInv(c, w, steps);
    RunLifetimes(c, w, steps);
    var r := Run(c, w, steps);
    var s := r.sessions[k];
    var i, j := r.nodes[s.initiator], r.nodes[s.responder];
    assert NodeOk(c, r.sessions, s.initiator, i) && NodeOk(c, r.sessions, s.responder, j);
    assert ActiveOk(c, r.sessions, s.initiator, s.responder, i.active[s.responder]);
    assert ActiveOk(c, r.sessions, s.responder, s.initiator, j.active[s.initiator]);
    assert LifetimeOk(r, s);
    LifetimeAgreementIff(s.lifetimeMs, i.limits, j.limits);
  }
}
