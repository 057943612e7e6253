/** The mirror of the no-orphaned-initiator property (common/node.cpp): what a responder that
    holds a key can rely on, and the refusals that leave it alone with one. */
module AesResponder {
  import opened Common
  import opened AesNegotiation
  import opened AesProtocol
  import opened AesTheorems

  // ---------------------------------------------------------------- the property

  /** A message from the initiator of k that makes the responder give k up. */
  predicate IsClearing(s: Session, k: Bytes, env: Envelope) {
    && env.sender == Some(s.initiator) && env.destination == s.responder
    && Silences(env.payload) && env.payload.keyId == Some(k)
  }

  predicate ClearingInFlight(w: World, k: Bytes)
    requires k in w.sessions
  {
    exists env | env in w.network :: IsClearing(w.sessions[k], k, env)
  }

  predicate Attends(c: Crypto, w: World, k: Bytes)
    requires k in w.sessions
  {
    var s := w.sessions[k];
    Holds(w, s.initiator, s.responder, k) || ReplyInFlight(c, w, k) || ClearingInFlight(w, k)
  }

  /** This step refuses the reply for k with a code that does not clear k at the responder. */
  predicate Refuses(c: Crypto, w: World, step: Step, k: Bytes) {
    && step.StepDeliver? && step.env in w.network && step.env.destination in w.nodes && step.env.sender.Some?
    && step.env.payload.Reply? && step.env.payload.keyId == Some(k)
    && ReplyRefusal(c, w.nodes[step.env.destination], step.env.sender.value, step.env.payload)
       in {Some(KeyLimitReached), Some(InvalidRequest)}
  }

  predicate WasRefused(c: Crypto, w: World, steps: seq<Step>, k: Bytes) {
    && steps != []
    && var before := steps[..|steps| - 1];
       WasRefused(c, w, before, k) || Refuses(c, Run(c, w, before), steps[|steps| - 1], k)
  }

  // ---------------------------------------------------------------- invariant

  predicate RequestInFlight(c: Crypto, w: World, k: Bytes)
    requires k in w.sessions
  {
    RequestEnvelope(c, k, w.sessions[k]) in w.network
  }

  /** Once a message that silences k is under way, k is no longer being asked for, and if the
      responder sent it, the responder does not hold k. */
  predicate Settled(c: Crypto, w: World, env: Envelope) {
    Silences(env.payload) && env.payload.keyId.Some? && env.payload.keyId.value in w.sessions ==>
      var k := env.payload.keyId.value;
      var s := w.sessions[k];
      && !RequestInFlight(c, w, k)
      && (env.sender == Some(s.responder) && env.destination == s.initiator ==>
            !Holds(w, s.responder, s.initiator, k))
  }

  predicate Attended(c: Crypto, w: World, k: Bytes)
    requires k in w.sessions
  {
    Holds(w, w.sessions[k].responder, w.sessions[k].initiator, k) ==> Attends(c, w, k)
  }

  /** Every responder is attended to, but for the excused keys. */
  ghost predicate AllAttended(c: Crypto, w: World, excused: Bytes -> bool) {
    && (forall k | k in w.sessions :: excused(k) || Attended(c, w, k))
    && (forall env | env in w.network :: Settled(c, w, env))
  }

  /** A node at most forgets entries and sends no requests. */
  lemma ForgetsSettled(c: Crypto, w: World, n: NodeId, st': NodeState, network: multiset<Envelope>, env: Envelope)
    requires n in w.nodes && Forgets(w.nodes[n], st') && Settled(c, w, env)
    requires forall e | e in network :: e in w.network || !e.payload.Request?
    ensures Settled(c, World(w.nodes[n := st'], network, w.sessions), env)
  {
  }

  // ---------------------------------------------------------------- dropping keys

  /** st' is st without some keys, and each peer concerned is sent a drop notification. */
  ghost predicate Announces(n: NodeId, st: NodeState, st': NodeState, drops: multiset<Envelope>) {
    && Forgets(st, st')
    && (forall q | q in st.active && q !in st'.active ::
          exists e | e in drops :: e.destination == q)
    && (forall e | e in drops ::
          && e.sender == Some(n) && e.payload.Drop? && e.destination in st.active && e.destination !in st'.active
          && e.payload.keyId == Some(st.active[e.destination].keyId))
  }

  /** What is active has been answered, so it is not being asked for. */
  lemma ActiveNotRequested(c: Crypto, w: World, n: NodeId, q: NodeId)
    requires Inv(c, w) && n in w.nodes && q in w.nodes[n].active
    ensures w.nodes[n].active[q].keyId in w.sessions && !RequestInFlight(c, w, w.nodes[n].active[q].keyId)
  {
    var a := w.nodes[n].active[q];
    assert NodeOk(c, w.sessions, n, w.nodes[n]) && ActiveOk(c, w.sessions, n, q, a);
  }

  lemma DropsAttends(c: Crypto, w: World, n: NodeId, st': NodeState, drops: multiset<Envelope>, k: Bytes)
    requires n in w.nodes && Announces(n, w.nodes[n], st', drops) && k in w.sessions && Attends(c, w, k)
    ensures Attends(c, World(w.nodes[n := st'], w.network + drops, w.sessions), k)
  {
    var w' := World(w.nodes[n := st'], w.network + drops, w.sessions);
    var s := w.sessions[k];
    if ClearingInFlight(w, k) {
      var e :| e in w.network && IsClearing(s, k, e);
      assert e in w'.network;
    } else if Holds(w, s.initiator, s.responder, k) && n == s.initiator && s.responder !in st'.active {
      var e :| e in drops && e.destination == s.responder;
      assert e in w'.network && IsClearing(s, k, e);
    }
  }

  lemma DropsAttended(c: Crypto, w: World, n: NodeId, st': NodeState, drops: multiset<Envelope>, excused: Bytes -> bool)
    requires Inv(c, w) && AllAttended(c, w, excused) && n in w.nodes && Announces(n, w.nodes[n], st', drops)
    ensures AllAttended(c, World(w.nodes[n := st'], w.network + drops, w.sessions), excused)
  {
    var w' := World(w.nodes[n := st'], w.network + drops, w.sessions);
    forall k | k in w'.sessions && !excused(k)
      ensures Attended(c, w', k)
    {
      assert Attended(c, w, k);
      if Attends(c, w, k) { DropsAttends(c, w, n, st', drops, k); }
    }
    forall e | e in w'.network
      ensures Settled(c, w', e)
    {
      if e in w.network {
        ForgetsSettled(c, w, n, st', w.network + drops, e);
      } else {
        ActiveNotRequested(c, w, n, e.destination);
      }
    }
  }

  lemma SweepAttended(c: Crypto, w: World, n: NodeId, now: int, excused: Bytes -> bool)
    requires Inv(c, w) && AllAttended(c, w, excused) && n in w.nodes
    ensures AllAttended(c, Swept(w, n, now), excused)
  {
    var st := w.nodes[n];
    SweepTells(c, w.sessions, n, st, now);
    forall q | q in st.active && q !in Sweep(st, now).active
      ensures exists e | e in multiset(SweepDrops(n, st, now)) :: e.destination == q
    {
      assert DropTo(n, q, st.active[q].keyId, "expired") in multiset(SweepDrops(n, st, now));
    }
    DropsAttended(c, w, n, Sweep(st, now), multiset(SweepDrops(n, st, now)), excused);
  }

  lemma LocalDropAttended(c: Crypto, w: World, n: NodeId, peer: NodeId, reason: string, excused: Bytes -> bool)
    requires Inv(c, w) && AllAttended(c, w, excused) && n in w.nodes
    ensures AllAttended(c, Dropped(w, n, peer, reason), excused)
  {
    var o := LocalDrop(n, w.nodes[n], peer, reason);
    if peer in w.nodes[n].active { assert o.out.value in Sent(o.out); }
    DropsAttended(c, w, n, o.state, Sent(o.out), excused);
  }

  lemma SetLimitsAttended(c: Crypto, w: World, n: NodeId, limits: Limits, excused: Bytes -> bool)
    requires AllAttended(c, w, excused) && n in w.nodes
    ensures AllAttended(c, Limited(w, n, limits), excused)
  {
    var w' := Limited(w, n, limits);
    forall k | k in w'.sessions && !excused(k)
      ensures Attended(c, w', k)
    {
      assert Attended(c, w, k);
      assert ClearingInFlight(w, k) ==> ClearingInFlight(w', k);
    }
    forall e | e in w'.network
      ensures Settled(c, w', e)
    {
      assert Settled(c, w, e);
    }
  }

  // ---------------------------------------------------------------- taking in a message

  /** A refused reply either silences the key at the responder or is excused. */
  lemma ReceivesAttends(c: Crypto, w: World, env: Envelope, n: NodeId, q: NodeId, st': NodeState,
                        out: Option<Envelope>, k: Bytes)
    requires env in w.network && n in w.nodes && n == env.destination && env.sender == Some(q) && Settled(c, w, env)
    requires Receives(env, n, q, w.nodes[n], st', out) && k in w.sessions && Attended(c, w, k)
    requires env.payload.Reply? && env.payload.keyId == Some(k) ==> out.Some? && Silences(out.value.payload)
    ensures Attended(c, World(w.nodes[n := st'], w.network - multiset{env} + Sent(out), w.sessions), k)
  {
    var w' := World(w.nodes[n := st'], w.network - multiset{env} + Sent(out), w.sessions);
    var s := w.sessions[k];
    if Holds(w', s.responder, s.initiator, k) {
      if ClearingInFlight(w, k) {
        var e :| e in w.network && IsClearing(s, k, e);
        assert e in w'.network;
      } else if ReplyInFlight(c, w, k) {
        if env == ReplyEnvelope(c, k, s) {
          assert out.value in w'.network && IsClearing(s, k, out.value);
        } else {
          assert ReplyEnvelope(c, k, s) in w'.network;
        }
      }
    }
  }

  /** Only a request or a drop notification is answered with a message that silences its key,
      apart from a reply; none of them leaves a request for that key behind. */
  lemma AnswerSettled(c: Crypto, w: World, env: Envelope, n: NodeId, q: NodeId, st': NodeState, out: Envelope)
    requires Inv(c, w) && env in w.network && Settled(c, w, env)
    requires n in w.nodes && n == env.destination && env.sender == Some(q) && !env.payload.Error?
    requires Receives(env, n, q, w.nodes[n], st', Some(out))
    ensures Settled(c, World(w.nodes[n := st'], w.network - multiset{env} + multiset{out}, w.sessions), out)
  {
    assert EnvelopeOk(c, w.sessions, env);
    var k := env.payload.keyId.value;
    var request := RequestEnvelope(c, k, w.sessions[k]);
    if request in w.network { assert EnvelopeOk(c, w.sessions, request); }
  }

  lemma ReceivesAttended(c: Crypto, w: World, env: Envelope, n: NodeId, q: NodeId, st': NodeState,
                         out: Option<Envelope>, excused: Bytes -> bool)
    requires Inv(c, w) && AllAttended(c, w, excused) && env in w.network
    requires n in w.nodes && n == env.destination && env.sender == Some(q)
    requires Receives(env, n, q, w.nodes[n], st', out) && (env.payload.Error? ==> out.None?)
    requires env.payload.Reply? && env.payload.keyId.Some? && !excused(env.payload.keyId.value) ==>
               out.Some? && Silences(out.value.payload)
    ensures AllAttended(c, World(w.nodes[n := st'], w.network - multiset{env} + Sent(out), w.sessions), excused)
  {
    var w' := World(w.nodes[n := st'], w.network - multiset{env} + Sent(out), w.sessions);
    forall k | k in w'.sessions && !excused(k)
      ensures Attended(c, w', k)
    {
      ReceivesAttends(c, w, env, n, q, st', out, k);
    }
    forall e | e in w'.network
      ensures Settled(c, w', e)
    {
      if out == Some(e) {
        AnswerSettled(c, w, env, n, q, st', e);
      } else {
        ForgetsSettled(c, w, n, st', w'.network, e);
      }
    }
  }

  // ---------------------------------------------------------------- asking, granting, confirming

  lemma TouchesAttended(c: Crypto, w: World, w': World, k: Bytes, excused: Bytes -> bool)
    requires AllAttended(c, w, excused) && Touches(c, w, w', k) && Attended(c, w', k)
    requires forall e | e in w'.network && e.payload.keyId == Some(k) :: Settled(c, w', e)
    ensures AllAttended(c, w', excused)
  {
    forall j | j in w'.sessions && !excused(j)
      ensures Attended(c, w', j)
    {
      if j != k { UntouchedAttended(c, w, w', k, j); }
    }
    forall e | e in w'.network
      ensures Settled(c, w', e)
    {
      if e.payload.keyId != Some(k) { assert Settled(c, w, e); }
    }
  }

  lemma UntouchedAttended(c: Crypto, w: World, w': World, k: Bytes, j: Bytes)
    requires Touches(c, w, w', k) && j != k && j in w'.sessions && j in w.sessions && Attended(c, w, j)
    ensures Attended(c, w', j)
  {
    var s := w.sessions[j];
    if ClearingInFlight(w, j) {
      var e :| e in w.network && IsClearing(s, j, e);
      assert e in w'.network;
    } else if ReplyInFlight(c, w, j) {
      assert ReplyEnvelope(c, j, s) in w'.network;
    }
  }

  /** Nobody holds or speaks of a key id before it is used. */
  lemma FreshKey(c: Crypto, w: World, n: NodeId, q: NodeId, k: Bytes)
    requires Inv(c, w) && k !in w.sessions
    ensures !Holds(w, n, q, k)
    ensures forall e | e in w.network :: e.payload.keyId != Some(k)
  {
    if n in w.nodes { assert NodeOk(c, w.sessions, n, w.nodes[n]); }
    forall e | e in w.network
      ensures e.payload.keyId != Some(k)
    {
      assert EnvelopeOk(c, w.sessions, e);
    }
  }

  lemma OpensAttended(c: Crypto, w: World, w': World, n: NodeId, q: NodeId, k: Bytes, s: Session, entry: Pending,
                      excused: Bytes -> bool)
    requires Inv(c, w) && AllAttended(c, w, excused) && n in w.nodes && k !in w.sessions
    requires s.initiator == n && s.responder == q && entry.keyId == k && q !in w.nodes[n].pending
    requires w' == World(w.nodes[n := w.nodes[n].(pending := w.nodes[n].pending[q := entry])],
                         w.network + multiset{RequestEnvelope(c, k, s)}, w.sessions[k := s])
    ensures AllAttended(c, w', excused)
  {
    OpensTouches(c, w, w', n, q, k, s, entry);
    FreshKey(c, w, q, n, k);
    assert !Holds(w', q, n, k);
    TouchesAttended(c, w, w', k, excused);
  }

  lemma BeginAttended(c: Crypto, w: World, n: NodeId, peer: NodeId, requestedMs: nat, now: int,
                      keyId: Uuid, ephemeral: nat, excused: Bytes -> bool)
    requires Inv(c, w) && AllAttended(c, w, excused) && n in w.nodes && keyId !in w.sessions
    ensures AllAttended(c, Begun(c, w, n, peer, requestedMs, now, keyId, ephemeral), excused)
  {
    var o := Begin(c, n, w.nodes[n], peer, requestedMs, now, keyId, ephemeral);
    if o.out.Some? {
      var s := Session(n, peer, ephemeral, ClampLifetime(requestedMs, w.nodes[n].limits), None, None);
      OpensAttended(c, w, Begun(c, w, n, peer, requestedMs, now, keyId, ephemeral),
                    n, peer, keyId, s, o.state.pending[peer], excused);
    }
  }

  lemma AnswersAttended(c: Crypto, w: World, w': World, env: Envelope, n: NodeId, q: NodeId,
                        k: Bytes, s': Session, key: Active, excused: Bytes -> bool)
    requires AllAttended(c, w, excused) && env in w.network && n in w.nodes && k in w.sessions
    requires env == RequestEnvelope(c, k, w.sessions[k]) && key.keyId == k && q !in w.nodes[n].active
    requires s' == w.sessions[k].(answer := s'.answer) && s'.answer.Some?
    requires w' == World(w.nodes[n := w.nodes[n].(active := w.nodes[n].active[q := key])],
                         w.network - multiset{env} + multiset{ReplyEnvelope(c, k, s')}, w.sessions[k := s'])
    ensures AllAttended(c, w', excused)
  {
    AnswersTouches(c, w, w', env, n, q, k, s', key);
    assert ReplyInFlight(c, w', k);
    forall e | e in w'.network && e.payload.keyId == Some(k)
      ensures Settled(c, w', e)
    {
      if e in w.network { assert Settled(c, w, e); }
    }
    TouchesAttended(c, w, w', k, excused);
  }

  lemma ConfirmsAttended(c: Crypto, w: World, w': World, env: Envelope, n: NodeId, q: NodeId,
                         k: Bytes, s': Session, key: Active, excused: Bytes -> bool)
    requires AllAttended(c, w, excused) && env in w.network && n in w.nodes && k in w.sessions
    requires env.payload.Reply? && env.payload.keyId == Some(k) && key.keyId == k && q !in w.nodes[n].active && q != n
    requires w.sessions[k].initiator == n && w.sessions[k].responder == q
    requires s' == w.sessions[k].(confirmation := s'.confirmation)
    requires w' == World(w.nodes[n := w.nodes[n].(active := w.nodes[n].active[q := key],
                                                  pending := w.nodes[n].pending - {q})],
                         w.network - multiset{env}, w.sessions[k := s'])
    ensures AllAttended(c, w', excused)
  {
    ConfirmsTouches(c, w, w', env, n, q, k, s', key);
    assert Holds(w', n, q, k);
    forall e | e in w'.network && e.payload.keyId == Some(k)
      ensures Settled(c, w', e)
    {
      assert Settled(c, w, e);
    }
    TouchesAttended(c, w, w', k, excused);
  }

  // ---------------------------------------------------------------- every step

  lemma DeliverRequestAttended(c: Crypto, w: World, env: Envelope, now: int, ephemeral: nat, excused: Bytes -> bool)
    requires Inv(c, w) && AllAttended(c, w, excused)
    requires env in w.network && env.destination in w.nodes && env.payload.Request?
    ensures AllAttended(c, Delivered(c, w, env, now, ephemeral), excused)
  {
    assert EnvelopeOk(c, w.sessions, env);
    var n, q, k := env.destination, env.sender.value, env.payload.keyId.value;
    var w' := Delivered(c, w, env, now, ephemeral);
    var o := HandleRequest(c, n, w.nodes[n], q, env.payload, now, ephemeral);
    if RequestRefusal(c, w.nodes[n], q, env.payload, ephemeral).Some? {
      RefusedRequestReceives(c, n, w.nodes[n], env, q, now, ephemeral);
      ReceivesAttended(c, w, env, n, q, o.state, o.out, excused);
    } else {
      AnswersAttended(c, w, w', env, n, q, k, w'.sessions[k], o.state.active[q], excused);
    }
  }

  /** The codes that do not clear the key at the responder are excused. */
  lemma DeliverReplyAttended(c: Crypto, w: World, env: Envelope, now: int, ephemeral: nat, excused: Bytes -> bool)
    requires Inv(c, w) && AllAttended(c, w, excused)
    requires env in w.network && env.destination in w.nodes && env.payload.Reply?
    requires forall k :: Refuses(c, w, StepDeliver(env, now, ephemeral), k) ==> excused(k)
    ensures AllAttended(c, Delivered(c, w, env, now, ephemeral), excused)
  {
    assert EnvelopeOk(c, w.sessions, env);
    var n, q, k := env.destination, env.sender.value, env.payload.keyId.value;
    var w' := Delivered(c, w, env, now, ephemeral);
    var o := HandleReply(c, n, w.nodes[n], q, env.payload, now);
    assert NodeOk(c, w.sessions, n, w.nodes[n]);
    if ReplyRefusal(c, w.nodes[n], q, env.payload).Some? {
      RefusedReplyReceives(c, n, w.nodes[n], env, q, now);
      assert Refuses(c, w, StepDeliver(env, now, ephemeral), k) || Silences(o.out.value.payload);
      ReceivesAttended(c, w, env, n, q, o.state, o.out, excused);
    } else {
      assert w.network - multiset{env} + Sent(o.out) == w.network - multiset{env};
      ConfirmsAttended(c, w, w', env, n, q, k, w'.sessions[k], o.state.active[q], excused);
    }
  }

  lemma DeliverOtherAttended(c: Crypto, w: World, env: Envelope, now: int, ephemeral: nat, excused: Bytes -> bool)
    requires Inv(c, w) && AllAttended(c, w, excused) && env in w.network && env.destination in w.nodes
    requires env.payload.Drop? || env.payload.Error?
    ensures AllAttended(c, Delivered(c, w, env, now, ephemeral), excused)
  {
    assert EnvelopeOk(c, w.sessions, env);
    var n, q := env.destination, env.sender.value;
    assert NodeOk(c, w.sessions, n, w.nodes[n]);
    var o := Handle(c, n, w.nodes[n], env.sender, env.payload, now, ephemeral);
    if env.payload.Drop? {
      DropReceives(n, w.nodes[n], env, q);
    } else {
      ErrorReceives(n, w.nodes[n], env, q);
    }
    ReceivesAttended(c, w, env, n, q, o.state, o.out, excused);
  }

  lemma DeliverAttended(c: Crypto, w: World, env: Envelope, now: int, ephemeral: nat, excused: Bytes -> bool)
    requires Inv(c, w) && AllAttended(c, w, excused) && env in w.network && env.destination in w.nodes
    requires forall k :: Refuses(c, w, StepDeliver(env, now, ephemeral), k) ==> excused(k)
    ensures AllAttended(c, Delivered(c, w, env, now, ephemeral), excused)
  {
    match env.payload
    case Request(_, _, _, _) => DeliverRequestAttended(c, w, env, now, ephemeral, excused);
    case Reply(_, _, _, _) => DeliverReplyAttended(c, w, env, now, ephemeral, excused);
    case _ => DeliverOtherAttended(c, w, env, now, ephemeral, excused);
  }

  lemma NextAttended(c: Crypto, w: World, step: Step, excused: Bytes -> bool)
    requires Inv(c, w) && AllAttended(c, w, excused) && !step.StepLose?
    requires forall k :: Refuses(c, w, step, k) ==> excused(k)
    ensures AllAttended(c, Next(c, w, step), excused)
  {
    match step
    case StepBegin(n, peer, requestedMs, now, keyId, ephemeral) =>
      if n in w.nodes && keyId !in w.sessions {
        BeginAttended(c, w, n, peer, requestedMs, now, keyId, ephemeral, excused);
      }
    case StepDeliver(env, now, ephemeral) =>
      if env in w.network && env.destination in w.nodes { DeliverAttended(c, w, env, now, ephemeral, excused); }
    case StepSweep(n, now) =>
      if n in w.nodes { SweepAttended(c, w, n, now, excused); }
    case StepLocalDrop(n, peer, reason) =>
      if n in w.nodes { LocalDropAttended(c, w, n, peer, reason, excused); }
    case StepSetLimits(n, limits) =>
      if n in w.nodes { SetLimitsAttended(c, w, n, limits, excused); }
  }

  lemma {:induction false} RunAttended(c: Crypto, w: World, steps: seq<Step>)
    requires Init(w) && Lossless(steps)
    ensures AllAttended(c, Run(c, w, steps), k => WasRefused(c, w, steps, k))
  {
    if steps != [] {
      var before := steps[..|steps| - 1];
      RunAttended(c, w, before);
      RunInv(c, w, before);
      NextAttended(c, Run(c, w, before), steps[|steps| - 1], k => WasRefused(c, w, steps, k));
    }
  }

  /** In every run that loses no message, in whatever order messages arrive: a responder that
      holds k has an initiator that holds k, or the reply or a message clearing k is on its way,
      or the initiator refused the reply with a code that clears nothing. */
  lemma NoOrphanedResponder(c: Crypto, w: World, steps: seq<Step>, k: Bytes)
    requires Init(w) && Lossless(steps) && k in Run(c, w, steps).sessions
    ensures var r := Run(c, w, steps);
            var s := r.sessions[k];
            Holds(r, s.responder, s.initiator, k) ==>
              || Holds(r, s.initiator, s.responder, k)
              || ReplyInFlight(c, r, k)
              || ClearingInFlight(r, k)
              || WasRefused(c, w, steps, k)
  {
    RunAttended(c, w, steps);
    assert WasRefused(c, w, steps, k) || Attended(c, Run(c, w, steps), k);
  }

  // ---------------------------------------------------------------- a refusal is final

  /** k was granted, but its reply is gone and was never accepted. */
  predicate Spent(c: Crypto, w: World, k: Bytes) {
    && k in w.sessions && w.sessions[k].answer.Some? && w.sessions[k].confirmation.None?
    && !ReplyInFlight(c, w, k)
  }

  lemma RefusesSpends(c: Crypto, w: World, step: Step, k: Bytes)
    requires Inv(c, w) && Refuses(c, w, step, k)
    ensures Spent(c, Next(c, w, step), k)
  {
    assert EnvelopeOk(c, w.sessions, step.env);
  }

  /** A reply appears only when its request is granted. */
  lemma AnswersOther(c: Crypto, w: World, env: Envelope, now: int, ephemeral: nat, k: Bytes)
    requires EnvelopeOk(c, w.sessions, env) && env.destination in w.nodes
    requires k in w.sessions && w.sessions[k].answer.Some? && w.sessions[k].confirmation.None?
    requires env.payload.Reply? ==> env.payload.keyId != Some(k)
    ensures var o := Handle(c, env.destination, w.nodes[env.destination], env.sender, env.payload, now, ephemeral);
            && Record(c, w, env, now, ephemeral)[k] == w.sessions[k]
            && (o.out.Some? && o.out.value.payload.Reply? ==> o.out.value.payload.keyId != Some(k))
  {
  }

  lemma DeliverSpent(c: Crypto, w: World, env: Envelope, now: int, ephemeral: nat, k: Bytes)
    requires Inv(c, w) && Spent(c, w, k) && env in w.network && env.destination in w.nodes
    ensures Spent(c, Delivered(c, w, env, now, ephemeral), k)
  {
    assert EnvelopeOk(c, w.sessions, env);
    AnswersOther(c, w, env, now, ephemeral, k);
  }

  lemma BeginSpent(c: Crypto, w: World, n: NodeId, peer: NodeId, requestedMs: nat, now: int,
                   keyId: Uuid, ephemeral: nat, k: Bytes)
    requires Spent(c, w, k) && n in w.nodes && keyId !in w.sessions
    ensures Spent(c, Begun(c, w, n, peer, requestedMs, now, keyId, ephemeral), k)
  {
  }

  lemma NextSpent(c: Crypto, w: World, step: Step, k: Bytes)
    requires Inv(c, w) && Spent(c, w, k)
    ensures Spent(c, Next(c, w, step), k)
  {
    match step
    case StepBegin(n, peer, requestedMs, now, keyId, ephemeral) =>
      if n in w.nodes && keyId !in w.sessions { BeginSpent(c, w, n, peer, requestedMs, now, keyId, ephemeral, k); }
    case StepDeliver(env, now, ephemeral) =>
      if env in w.network && env.destination in w.nodes { DeliverSpent(c, w, env, now, ephemeral, k); }
    case _ =>
  }

  lemma {:induction false} RunSpent(c: Crypto, w: World, steps: seq<Step>, k: Bytes)
    requires Init(w) && WasRefused(c, w, steps, k)
    ensures Spent(c, Run(c, w, steps), k)
  {
    var before := steps[..|steps| - 1];
    RunInv(c, w, before);
    if WasRefused(c, w, before, k) {
      RunSpent(c, w, before, k);
      NextSpent(c, Run(c, w, before), steps[|steps| - 1], k);
    } else {
      RefusesSpends(c, Run(c, w, before), steps[|steps| - 1], k);
    }
  }

  /** In every run, lossy or not: once the initiator refused the reply for k that way, it never
      holds k. */
  lemma RefusedNeverHolds(c: Crypto, w: World, steps: seq<Step>, k: Bytes)
    requires Init(w) && WasRefused(c, w, steps, k)
    ensures var r := Run(c, w, steps);
            && k in r.sessions && !Holds(r, r.sessions[k].initiator, r.sessions[k].responder, k)
            && !ReplyInFlight(c, r, k)
  {
    RunSpent(c, w, steps, k);
    RunInv(c, w, steps);
    var r := Run(c, w, steps);
    if r.sessions[k].initiator in r.nodes {
      assert NodeOk(c, r.sessions, r.sessions[k].initiator, r.nodes[r.sessions[k].initiator]);
    }
  }

  /** In every run that loses no message, a responder that holds k, with neither the reply nor a
      message clearing k on its way, is alone with it if and only if the initiator refused the
      reply with a code that clears nothing. */
  lemma AloneIffRefused(c: Crypto, w: World, steps: seq<Step>, k: Bytes)
    requires Init(w) && Lossless(steps) && k in Run(c, w, steps).sessions
    requires var r := Run(c, w, steps);
             && Holds(r, r.sessions[k].responder, r.sessions[k].initiator, k)
             && !ReplyInFlight(c, r, k) && !ClearingInFlight(r, k)
    ensures var r := Run(c, w, steps);
            !Holds(r, r.sessions[k].initiator, r.sessions[k].responder, k) <==> WasRefused(c, w, steps, k)
  {
    NoOrphanedResponder(c, w, steps, k);
    if WasRefused(c, w, steps, k) { RefusedNeverHolds(c, w, steps, k); }
  }
}
