/** The key-negotiation protocol between any number of honest nodes over a network that
    delivers in any order: every step is one locked region of common/node.cpp together with
    the message it queues. Key ids are fresh; clocks are arbitrary and may differ per step. */
module AesProtocol {
  import opened Common
  import opened AesNegotiation

  // ---------------------------------------------------------------- the system

  datatype Answer = Answer(ephemeral: nat, lifetimeMs: nat, at: int)
  datatype Confirmation = Confirmation(lifetimeMs: nat, at: int)

  /** History of one key id, kept for reasoning only: who asked whom, and what each side
      contributed when it installed the key. */
  datatype Session = Session(
    initiator: NodeId,
    responder: NodeId,
    ephemeral: nat,
    lifetimeMs: nat,
    answer: Option<Answer>,
    confirmation: Option<Confirmation>)

  type Sessions = map<Bytes, Session>

  datatype World = World(
    nodes: map<NodeId, NodeState>,
    network: multiset<Envelope>,
    sessions: Sessions)

  datatype Step =
    | StepBegin(node: NodeId, peer: NodeId, requestedMs: nat, now: int, keyId: Uuid, ephemeral: nat)
    | StepDeliver(env: Envelope, now: int, ephemeral: nat)
    | StepSweep(node: NodeId, now: int)
    | StepLocalDrop(node: NodeId, peer: NodeId, reason: string)
    | StepSetLimits(node: NodeId, limits: Limits)
    | StepLose(env: Envelope)

  /** Records the responder's or the initiator's contribution when a key is installed. */
  function Record(c: Crypto, w: World, env: Envelope, now: int, ephemeral: nat): Sessions
    requires env.destination in w.nodes
  {
    var st, p, ss := w.nodes[env.destination], env.payload, w.sessions;
    if env.sender.None? then ss
    else if p.Request? && RequestRefusal(c, st, env.sender.value, p, ephemeral).None? && p.keyId.value in ss then
      ss[p.keyId.value := ss[p.keyId.value].(
           answer := Some(Answer(ephemeral, ClampLifetime(p.lifetimeMs, st.limits), now)))]
    else if p.Reply? && ReplyRefusal(c, st, env.sender.value, p).None? && p.keyId.value in ss then
      ss[p.keyId.value := ss[p.keyId.value].(
           confirmation := Some(Confirmation(AcceptedLifetime(st, env.sender.value, p), now)))]
    else ss
  }

  function Begun(c: Crypto, w: World, n: NodeId, peer: NodeId, requestedMs: nat, now: int,
                 keyId: Uuid, ephemeral: nat): World
    requires n in w.nodes
  {
    var o := Begin(c, n, w.nodes[n], peer, requestedMs, now, keyId, ephemeral);
    if o.out.None? then w
    else
      var s := Session(n, peer, ephemeral, ClampLifetime(requestedMs, w.nodes[n].limits), None, None);
      World(w.nodes[n := o.state], w.network + Sent(o.out), w.sessions[keyId := s])
  }

  function Delivered(c: Crypto, w: World, env: Envelope, now: int, ephemeral: nat): World
    requires env.destination in w.nodes
  {
    var n := env.destination;
    var o := Handle(c, n, w.nodes[n], env.sender, env.payload, now, ephemeral);
    World(w.nodes[n := o.state], w.network - multiset{env} + Sent(o.out), Record(c, w, env, now, ephemeral))
  }

  function Swept(w: World, n: NodeId, now: int): World
    requires n in w.nodes
  {
    World(w.nodes[n := Sweep(w.nodes[n], now)],
          w.network + multiset(SweepDrops(n, w.nodes[n], now)), w.sessions)
  }

  function Dropped(w: World, n: NodeId, peer: NodeId, reason: string): World
    requires n in w.nodes
  {
    var o := LocalDrop(n, w.nodes[n], peer, reason);
    World(w.nodes[n := o.state], w.network + Sent(o.out), w.sessions)
  }

  function Limited(w: World, n: NodeId, limits: Limits): World
    requires n in w.nodes
  {
    w.(nodes := w.nodes[n := w.nodes[n].(limits := Sanitize(limits))])
  }

  /** A step that is not enabled leaves the world as it is. */
  function Next(c: Crypto, w: World, step: Step): World {
    match step
    case StepBegin(n, peer, requestedMs, now, keyId, ephemeral) =>
      if n in w.nodes && keyId !in w.sessions then Begun(c, w, n, peer, requestedMs, now, keyId, ephemeral) else w
    case StepDeliver(env, now, ephemeral) =>
      if env in w.network && env.destination in w.nodes then Delivered(c, w, env, now, ephemeral) else w
    case StepSweep(n, now) =>
      if n in w.nodes then Swept(w, n, now) else w
    case StepLocalDrop(n, peer, reason) =>
      if n in w.nodes then Dropped(w, n, peer, reason) else w
    case StepSetLimits(n, limits) =>
      if n in w.nodes then Limited(w, n, limits) else w
    case StepLose(env) =>
      w.(network := w.network - multiset{env})
  }

  function Run(c: Crypto, w: World, steps: seq<Step>): World {
    if steps == [] then w else Next(c, Run(c, w, steps[..|steps| - 1]), steps[|steps| - 1])
  }

  ghost predicate Init(w: World) {
    && w.network == multiset{} && w.sessions == map[]
    && forall n | n in w.nodes ::
         w.nodes[n].pending == map[] && w.nodes[n].active == map[] && Sane(w.nodes[n].limits)
  }

  // ---------------------------------------------------------------- invariant

  ghost predicate SessionsOk(ss: Sessions) {
    forall k | k in ss ::
      && |k| == 16 && ss[k].initiator != ss[k].responder
      && (ss[k].confirmation.Some? ==> ss[k].answer.Some?)
  }

  ghost predicate PendingOk(ss: Sessions, n: NodeId, q: NodeId, p: Pending) {
    && p.keyId in ss
    && var s := ss[p.keyId];
       s.initiator == n && s.responder == q
       && s.ephemeral == p.ephemeral && s.lifetimeMs == p.requestedLifetimeMs
  }

  ghost predicate InitiatorKey(c: Crypto, s: Session, n: NodeId, q: NodeId, a: Active) {
    && s.initiator == n && s.responder == q && s.answer.Some? && s.confirmation.Some?
    && a.expiresAt == s.confirmation.value.at + s.confirmation.value.lifetimeMs
    && var secret := c.agree(s.ephemeral, c.publicKey(s.answer.value.ephemeral));
       secret.Some? && a.keyMaterial == KeyMaterial(c, secret.value, a.keyId, n, q)
  }

  ghost predicate ResponderKey(c: Crypto, s: Session, n: NodeId, q: NodeId, a: Active) {
    && s.initiator == q && s.responder == n && s.answer.Some?
    && a.expiresAt == s.answer.value.at + s.answer.value.lifetimeMs
    && var secret := c.agree(s.answer.value.ephemeral, c.publicKey(s.ephemeral));
       secret.Some? && a.keyMaterial == KeyMaterial(c, secret.value, a.keyId, n, q)
  }

  ghost predicate ActiveOk(c: Crypto, ss: Sessions, n: NodeId, q: NodeId, a: Active) {
    a.keyId in ss && (InitiatorKey(c, ss[a.keyId], n, q, a) || ResponderKey(c, ss[a.keyId], n, q, a))
  }

  ghost predicate NodeOk(c: Crypto, ss: Sessions, n: NodeId, st: NodeState) {
    && Exclusive(st) && Sane(st.limits)
    && (forall q | q in st.pending :: PendingOk(ss, n, q, st.pending[q]))
    && (forall q | q in st.active :: ActiveOk(c, ss, n, q, st.active[q]))
  }

  function RequestEnvelope(c: Crypto, k: Bytes, s: Session): Envelope {
    Envelope(Some(s.initiator), s.responder,
             Request(Some(k), Some(c.publicKey(s.ephemeral)), s.lifetimeMs, P256_SHA256_AES256))
  }

  function ReplyEnvelope(c: Crypto, k: Bytes, s: Session): Envelope
    requires s.answer.Some?
  {
    Envelope(Some(s.responder), s.initiator,
             Reply(Some(k), Some(c.publicKey(s.answer.value.ephemeral)), s.answer.value.lifetimeMs,
                   P256_SHA256_AES256))
  }

  /** A request in flight has not been answered; a reply in flight has not been confirmed. */
  ghost predicate EnvelopeOk(c: Crypto, ss: Sessions, env: Envelope) {
    && env.sender.Some? && env.payload.keyId.Some? && env.payload.keyId.value in ss
    && var k := env.payload.keyId.value;
       && (env.payload.Request? ==> ss[k].answer.None? && env == RequestEnvelope(c, k, ss[k]))
       && (env.payload.Reply? ==> ss[k].answer.Some? && ss[k].confirmation.None?
                                  && env == ReplyEnvelope(c, k, ss[k]))
  }

  ghost predicate NetworkOk(c: Crypto, ss: Sessions, network: multiset<Envelope>) {
    forall env | env in network ::
      EnvelopeOk(c, ss, env) && (env.payload.Request? || env.payload.Reply? ==> network[env] == 1)
  }

  ghost predicate Inv(c: Crypto, w: World) {
    && SessionsOk(w.sessions)
    && (forall n | n in w.nodes :: NodeOk(c, w.sessions, n, w.nodes[n]))
    && NetworkOk(c, w.sessions, w.network)
  }

  /** History only grows: what was recorded stays. */
  ghost predicate Extends(ss: Sessions, ss': Sessions) {
    forall k | k in ss ::
      && k in ss'
      && ss'[k].initiator == ss[k].initiator && ss'[k].responder == ss[k].responder
      && ss'[k].ephemeral == ss[k].ephemeral && ss'[k].lifetimeMs == ss[k].lifetimeMs
      && (ss[k].answer.Some? ==> ss'[k].answer == ss[k].answer)
      && (ss[k].confirmation.Some? ==> ss'[k].confirmation == ss[k].confirmation)
  }

  lemma NodeOkExtends(c: Crypto, ss: Sessions, ss': Sessions, n: NodeId, st: NodeState)
    requires NodeOk(c, ss, n, st) && Extends(ss, ss')
    ensures NodeOk(c, ss', n, st)
  {
  }

  /** One node moved, the rest of the system is carried along. */
  lemma Assemble(c: Crypto, w: World, w': World, n: NodeId)
    requires Inv(c, w) && n in w.nodes && n in w'.nodes
    requires w'.nodes == w.nodes[n := w'.nodes[n]]
    requires Extends(w.sessions, w'.sessions) && SessionsOk(w'.sessions)
    requires NodeOk(c, w'.sessions, n, w'.nodes[n])
    requires NetworkOk(c, w'.sessions, w'.network)
    ensures Inv(c, w')
  {
    forall x | x in w'.nodes
      ensures NodeOk(c, w'.sessions, x, w'.nodes[x])
    {
      if x != n { NodeOkExtends(c, w.sessions, w'.sessions, x, w.nodes[x]); }
    }
  }

  /** Forgetting entries keeps a node in order. */
  lemma NodeForgets(c: Crypto, ss: Sessions, n: NodeId, st: NodeState, st': NodeState)
    requires NodeOk(c, ss, n, st) && Forgets(st, st')
    ensures NodeOk(c, ss, n, st')
  {
    assert st'.pending.Keys <= st.pending.Keys;
    assert st'.active.Keys <= st.active.Keys;
  }

  lemma NetworkAdds(c: Crypto, ss: Sessions, network: multiset<Envelope>, env: Envelope)
    requires NetworkOk(c, ss, network) && EnvelopeOk(c, ss, env)
    requires env.payload.Request? || env.payload.Reply? ==> env !in network
    ensures NetworkOk(c, ss, network + multiset{env})
  {
  }

  ghost predicate NoneInFlight(network: multiset<Envelope>, k: Bytes) {
    forall env | env in network && (env.payload.Request? || env.payload.Reply?) :: env.payload.keyId != Some(k)
  }

  /** Recording something about k does not disturb traffic about other keys. */
  lemma NetworkExtends(c: Crypto, ss: Sessions, ss': Sessions, network: multiset<Envelope>, k: Bytes)
    requires NetworkOk(c, ss, network) && NoneInFlight(network, k)
    requires k in ss' && forall j | j in ss && j != k :: j in ss' && ss'[j] == ss[j]
    ensures NetworkOk(c, ss', network)
  {
  }

  lemma OpensNode(c: Crypto, ss: Sessions, n: NodeId, st: NodeState, k: Bytes, s: Session, entry: Pending)
    requires NodeOk(c, ss, n, st) && k !in ss && s.responder !in st.active
    requires PendingOk(map[k := s], n, s.responder, entry)
    ensures NodeOk(c, ss[k := s], n, st.(pending := st.pending[s.responder := entry]))
  {
    NodeOkExtends(c, ss, ss[k := s], n, st);
  }

  /** A node opens a session under a fresh key id. */
  lemma OpensInv(c: Crypto, w: World, n: NodeId, k: Bytes, s: Session, entry: Pending)
    requires Inv(c, w) && n in w.nodes && k !in w.sessions && |k| == 16
    requires s.initiator == n != s.responder && s.answer.None? && s.confirmation.None?
    requires s.responder !in w.nodes[n].active && PendingOk(map[k := s], n, s.responder, entry)
    ensures var st' := w.nodes[n].(pending := w.nodes[n].pending[s.responder := entry]);
            Inv(c, World(w.nodes[n := st'], w.network + multiset{RequestEnvelope(c, k, s)}, w.sessions[k := s]))
  {
    var ss' := w.sessions[k := s];
    var st' := w.nodes[n].(pending := w.nodes[n].pending[s.responder := entry]);
    OpensNode(c, w.sessions, n, w.nodes[n], k, s, entry);
    NetworkExtends(c, w.sessions, ss', w.network, k);
    NetworkAdds(c, ss', w.network, RequestEnvelope(c, k, s));
    Assemble(c, w, World(w.nodes[n := st'], w.network + multiset{RequestEnvelope(c, k, s)}, ss'), n);
  }

  lemma BeginInv(c: Crypto, w: World, n: NodeId, peer: NodeId, requestedMs: nat, now: int,
                 keyId: Uuid, ephemeral: nat)
    requires Inv(c, w) && n in w.nodes && keyId !in w.sessions
    ensures Inv(c, Begun(c, w, n, peer, requestedMs, now, keyId, ephemeral))
  {
    var o := Begin(c, n, w.nodes[n], peer, requestedMs, now, keyId, ephemeral);
    if o.out.Some? {
      var s := Session(n, peer, ephemeral, ClampLifetime(requestedMs, w.nodes[n].limits), None, None);
      OpensInv(c, w, n, keyId, s, o.state.pending[peer]);
    }
  }

  /** A node forgets entries and sends drop notifications about keys it knew. */
  lemma DropsInv(c: Crypto, w: World, n: NodeId, st': NodeState, drops: multiset<Envelope>)
    requires Inv(c, w) && n in w.nodes && Forgets(w.nodes[n], st')
    requires forall e | e in drops :: e.sender.Some? && e.payload.Drop? && e.payload.keyId.Some?
                                      && e.payload.keyId.value in w.sessions
    ensures Inv(c, World(w.nodes[n := st'], w.network + drops, w.sessions))
  {
    NodeForgets(c, w.sessions, n, w.nodes[n], st');
    Assemble(c, w, World(w.nodes[n := st'], w.network + drops, w.sessions), n);
  }

  lemma SweepInv(c: Crypto, w: World, n: NodeId, now: int)
    requires Inv(c, w) && n in w.nodes
    ensures Inv(c, Swept(w, n, now))
  {
    assert NodeOk(c, w.sessions, n, w.nodes[n]);
    DropsInv(c, w, n, Sweep(w.nodes[n], now), multiset(SweepDrops(n, w.nodes[n], now)));
  }

  lemma LocalDropInv(c: Crypto, w: World, n: NodeId, peer: NodeId, reason: string)
    requires Inv(c, w) && n in w.nodes
    ensures Inv(c, Dropped(w, n, peer, reason))
  {
    assert NodeOk(c, w.sessions, n, w.nodes[n]);
    var o := LocalDrop(n, w.nodes[n], peer, reason);
    DropsInv(c, w, n, o.state, Sent(o.out));
  }

  lemma SetLimitsInv(c: Crypto, w: World, n: NodeId, limits: Limits)
    requires Inv(c, w) && n in w.nodes
    ensures Inv(c, Limited(w, n, limits))
  {
    SanitizeSane(limits);
    assert NodeOk(c, w.sessions, n, w.nodes[n]);
    Assemble(c, w, Limited(w, n, limits), n);
  }

  /** The rest of the network after taking one request or reply out of it. */
  lemma TakeUnique(c: Crypto, ss: Sessions, network: multiset<Envelope>, env: Envelope)
    requires NetworkOk(c, ss, network) && env in network
    ensures NetworkOk(c, ss, network - multiset{env})
    ensures env.payload.Request? || env.payload.Reply? ==>
              forall e | e in network - multiset{env} && e.payload.Request? == env.payload.Request?
                         && e.payload.Reply? == env.payload.Reply? :: e.payload.keyId != env.payload.keyId
  {
  }

  /** Taking a message in and at most forgetting entries, with at most an error in return. */
  lemma ForgetsInv(c: Crypto, w: World, env: Envelope, n: NodeId, st': NodeState, out: Option<Envelope>)
    requires Inv(c, w) && env in w.network && n in w.nodes && Forgets(w.nodes[n], st')
    requires out.Some? ==> out.value.sender.Some? && out.value.payload.Error?
                           && out.value.payload.keyId == env.payload.keyId
    ensures Inv(c, World(w.nodes[n := st'], w.network - multiset{env} + Sent(out), w.sessions))
  {
    var rest := w.network - multiset{env};
    TakeUnique(c, w.sessions, w.network, env);
    NodeForgets(c, w.sessions, n, w.nodes[n], st');
    if out.Some? {
      NetworkAdds(c, w.sessions, rest, out.value);
    } else {
      assert rest + Sent(out) == rest;
    }
    Assemble(c, w, World(w.nodes[n := st'], rest + Sent(out), w.sessions), n);
  }

  lemma InstallsNetwork(c: Crypto, ss: Sessions, network: multiset<Envelope>, env: Envelope,
                        k: Bytes, s': Session, out: Option<Envelope>)
    requires NetworkOk(c, ss, network) && env in network
    requires (env.payload.Request? || env.payload.Reply?) && env.payload.keyId == Some(k)
    requires env.payload.Request? ==> s'.answer.Some? && s'.confirmation.None?
    requires if env.payload.Request? then out == Some(ReplyEnvelope(c, k, s')) else out == None
    ensures NetworkOk(c, ss[k := s'], network - multiset{env} + Sent(out))
  {
    var rest, ss' := network - multiset{env}, ss[k := s'];
    assert EnvelopeOk(c, ss, env);
    TakeUnique(c, ss, network, env);
    assert NoneInFlight(rest, k);
    NetworkExtends(c, ss, ss', rest, k);
    if out.Some? {
      NetworkAdds(c, ss', rest, out.value);
    } else {
      assert rest + Sent(out) == rest;
    }
  }

  lemma InstallsNode(c: Crypto, ss: Sessions, n: NodeId, q: NodeId, st: NodeState, st': NodeState,
                     k: Bytes, s': Session)
    requires NodeOk(c, ss, n, st) && k in ss && Extends(ss, ss[k := s']) && Installs(st, st', q) && Exclusive(st')
    requires ActiveOk(c, map[k := s'], n, q, st'.active[q])
    ensures NodeOk(c, ss[k := s'], n, st')
  {
    NodeOkExtends(c, ss, ss[k := s'], n, st);
  }

  /** Installing a key for k at one end, recorded in the history of k. */
  lemma InstallsInv(c: Crypto, w: World, env: Envelope, n: NodeId, q: NodeId, st': NodeState,
                    k: Bytes, s': Session, out: Option<Envelope>)
    requires Inv(c, w) && env in w.network && n in w.nodes && k in w.sessions
    requires (env.payload.Request? || env.payload.Reply?) && env.payload.keyId == Some(k)
    requires Extends(w.sessions, w.sessions[k := s']) && s'.answer.Some?
    requires env.payload.Request? ==> s'.confirmation.None?
    requires Installs(w.nodes[n], st', q) && Exclusive(st') && ActiveOk(c, map[k := s'], n, q, st'.active[q])
    requires if env.payload.Request? then out == Some(ReplyEnvelope(c, k, s')) else out == None
    ensures Inv(c, World(w.nodes[n := st'], w.network - multiset{env} + Sent(out), w.sessions[k := s']))
  {
    InstallsNetwork(c, w.sessions, w.network, env, k, s', out);
    InstallsNode(c, w.sessions, n, q, w.nodes[n], st', k, s');
    assert SessionsOk(w.sessions[k := s']);
    Assemble(c, w, World(w.nodes[n := st'], w.network - multiset{env} + Sent(out), w.sessions[k := s']), n);
  }

  /** The key a responder installs is the one its history accounts for. */
  lemma AcceptedRequestKey(c: Crypto, w: World, env: Envelope, now: int, ephemeral: nat)
    requires SessionsOk(w.sessions) && env.destination in w.nodes && env.payload.Request?
    requires EnvelopeOk(c, w.sessions, env)
    requires RequestRefusal(c, w.nodes[env.destination], env.sender.value, env.payload, ephemeral).None?
    ensures var n, q, k := env.destination, env.sender.value, env.payload.keyId.value;
            var o := HandleRequest(c, n, w.nodes[n], q, env.payload, now, ephemeral);
            var s' := Record(c, w, env, now, ephemeral)[k];
            && Record(c, w, env, now, ephemeral) == w.sessions[k := s']
            && ResponderKey(c, s', n, q, o.state.active[q]) && o.state.active[q].keyId == k
            && Extends(w.sessions, w.sessions[k := s']) && s'.confirmation.None?
            && o.out == Some(ReplyEnvelope(c, k, s'))
  {
  }

  lemma DeliverRequestInv(c: Crypto, w: World, env: Envelope, now: int, ephemeral: nat)
    requires Inv(c, w) && env in w.network && env.destination in w.nodes && env.payload.Request?
    ensures Inv(c, Delivered(c, w, env, now, ephemeral))
  {
    assert EnvelopeOk(c, w.sessions, env);
    var n, q, p := env.destination, env.sender.value, env.payload;
    var o := HandleRequest(c, n, w.nodes[n], q, p, now, ephemeral);
    if RequestRefusal(c, w.nodes[n], q, p, ephemeral).None? {
      AcceptedRequestKey(c, w, env, now, ephemeral);
      AcceptedRequestInstalls(c, n, w.nodes[n], q, p, now, ephemeral);
      HandleKeeps(c, n, w.nodes[n], env.sender, p, now, ephemeral);
      var k := p.keyId.value;
      InstallsInv(c, w, env, n, q, o.state, k, Record(c, w, env, now, ephemeral)[k], o.out);
    } else {
      ForgetsInv(c, w, env, n, o.state, o.out);
    }
  }

  /** The key an initiator installs is the one its history accounts for. */
  lemma AcceptedReplyKey(c: Crypto, w: World, env: Envelope, now: int, ephemeral: nat)
    requires env.destination in w.nodes && NodeOk(c, w.sessions, env.destination, w.nodes[env.destination])
    requires EnvelopeOk(c, w.sessions, env) && env.payload.Reply?
    requires ReplyRefusal(c, w.nodes[env.destination], env.sender.value, env.payload).None?
    ensures var n, q, k := env.destination, env.sender.value, env.payload.keyId.value;
            var o := HandleReply(c, n, w.nodes[n], q, env.payload, now);
            var s' := Record(c, w, env, now, ephemeral)[k];
            && Record(c, w, env, now, ephemeral) == w.sessions[k := s']
            && InitiatorKey(c, s', n, q, o.state.active[q]) && o.state.active[q].keyId == k
            && Extends(w.sessions, w.sessions[k := s'])
  {
    var n, q := env.destination, env.sender.value;
    assert PendingOk(w.sessions, n, q, w.nodes[n].pending[q]);
  }

  lemma AcceptedReplyInv(c: Crypto, w: World, env: Envelope, now: int, ephemeral: nat)
    requires Inv(c, w) && env in w.network && env.destination in w.nodes && env.payload.Reply?
    requires EnvelopeOk(c, w.sessions, env)
    requires ReplyRefusal(c, w.nodes[env.destination], env.sender.value, env.payload).None?
    ensures Inv(c, Delivered(c, w, env, now, ephemeral))
  {
    var n, q, p := env.destination, env.sender.value, env.payload;
    AcceptedReplyKey(c, w, env, now, ephemeral);
    AcceptedReplyInstalls(c, n, w.nodes[n], q, p, now);
    HandleKeeps(c, n, w.nodes[n], env.sender, p, now, ephemeral);
    var o := HandleReply(c, n, w.nodes[n], q, p, now);
    var k := p.keyId.value;
    InstallsInv(c, w, env, n, q, o.state, k, Record(c, w, env, now, ephemeral)[k], o.out);
  }

  lemma DeliverReplyInv(c: Crypto, w: World, env: Envelope, now: int, ephemeral: nat)
    requires Inv(c, w) && env in w.network && env.destination in w.nodes && env.payload.Reply?
    ensures Inv(c, Delivered(c, w, env, now, ephemeral))
  {
    assert EnvelopeOk(c, w.sessions, env);
    var n, q, p := env.destination, env.sender.value, env.payload;
    if ReplyRefusal(c, w.nodes[n], q, p).None? {
      AcceptedReplyInv(c, w, env, now, ephemeral);
    } else {
      var o := HandleReply(c, n, w.nodes[n], q, p, now);
      RefusedReplyForgets(c, n, w.nodes[n], q, p, now);
      ForgetsInv(c, w, env, n, o.state, o.out);
    }
  }

  lemma DeliverOtherInv(c: Crypto, w: World, env: Envelope, now: int, ephemeral: nat)
    requires Inv(c, w) && env in w.network && env.destination in w.nodes
    requires env.payload.Drop? || env.payload.Error?
    ensures Inv(c, Delivered(c, w, env, now, ephemeral))
  {
    var n := env.destination;
    var o := Handle(c, n, w.nodes[n], env.sender, env.payload, now, ephemeral);
    DropOrErrorForgets(c, n, w.nodes[n], env.sender, env.payload, now, ephemeral);
    ForgetsInv(c, w, env, n, o.state, o.out);
  }

  lemma DeliverInv(c: Crypto, w: World, env: Envelope, now: int, ephemeral: nat)
    requires Inv(c, w) && env in w.network && env.destination in w.nodes
    ensures Inv(c, Delivered(c, w, env, now, ephemeral))
  {
    match env.payload
    case Request(_, _, _, _) => DeliverRequestInv(c, w, env, now, ephemeral);
    case Reply(_, _, _, _) => DeliverReplyInv(c, w, env, now, ephemeral);
    case _ => DeliverOtherInv(c, w, env, now, ephemeral);
  }

  lemma NextInv(c: Crypto, w: World, step: Step)
    requires Inv(c, w)
    ensures Inv(c, Next(c, w, step))
  {
    match step
    case StepBegin(n, peer, requestedMs, now, keyId, ephemeral) =>
      if n in w.nodes && keyId !in w.sessions { BeginInv(c, w, n, peer, requestedMs, now, keyId, ephemeral); }
    case StepDeliver(env, now, ephemeral) =>
      if env in w.network && env.destination in w.nodes { DeliverInv(c, w, env, now, ephemeral); }
    case StepSweep(n, now) =>
      if n in w.nodes { SweepInv(c, w, n, now); }
    case StepLocalDrop(n, peer, reason) =>
      if n in w.nodes { LocalDropInv(c, w, n, peer, reason); }
    case StepSetLimits(n, limits) =>
      if n in w.nodes { SetLimitsInv(c, w, n, limits); }
    case StepLose(env) => LoseInv(c, w, env);
  }

  lemma LoseInv(c: Crypto, w: World, env: Envelope)
    requires Inv(c, w)
    ensures Inv(c, w.(network := w.network - multiset{env}))
  {
    if env in w.network {
      TakeUnique(c, w.sessions, w.network, env);
    } else {
      assert w.network - multiset{env} == w.network;
    }
  }

  lemma {:induction false} RunInv(c: Crypto, w: World, steps: seq<Step>)
    requires Init(w)
    ensures Inv(c, Run(c, w, steps))
  {
    if steps != [] {
      RunInv(c, w, steps[..|steps| - 1]);
      NextInv(c, Run(c, w, steps[..|steps| - 1]), steps[|steps| - 1]);
    }
  }

  // ---------------------------------------------------------------- key agreement

  /** In every run, lossy or not: two nodes that hold an active key for each other under the
      same key id hold the same key material. */
  lemma KeyAgreement(c: Crypto, w: World, steps: seq<Step>, a: NodeId, b: NodeId)
    requires c.Symmetric() && Init(w)
    requires var r := Run(c, w, steps);
             && a in r.nodes && b in r.nodes && b in r.nodes[a].active && a in r.nodes[b].active
             && r.nodes[a].active[b].keyId == r.nodes[b].active[a].keyId
    ensures var r := Run(c, w, steps);
            r.nodes[a].active[b].keyMaterial == r.nodes[b].active[a].keyMaterial
  {
    RunInv(c, w, steps);
    var r := Run(c, w, steps);
    var ka, kb := r.nodes[a].active[b], r.nodes[b].active[a];
    var s := r.sessions[ka.keyId];
    assert ActiveOk(c, r.sessions, a, b, ka) && ActiveOk(c, r.sessions, b, a, kb);
    var secret := c.agree(s.ephemeral, c.publicKey(s.answer.value.ephemeral));
    assert secret == c.agree(s.answer.value.ephemeral, c.publicKey(s.ephemeral));
    KeyMaterialSymmetric(c, secret.value, ka.keyId, a, b);
  }
}
