/** What each key-negotiation message and call leads to (common/node.cpp): when it is granted, what
    the answer and the new entry hold, and what each error code says about the receiver. */
module AesOutcomes {
  import opened Common
  import opened AesNegotiation

  // ---------------------------------------------------------------- lifetimes

  /** No wish is the default; any other wish is granted if it is in range, and otherwise the
      nearest bound is. */
  lemma LifetimeChosen(wish: nat, l: Limits)
    requires Sane(l)
    ensures wish == 0 ==> ClampLifetime(wish, l) == l.defaultLifetimeMs
    ensures InRange(ClampLifetime(wish, l), l)
    ensures InRange(wish, l) && wish > 0 ==> ClampLifetime(wish, l) == wish
    ensures wish > l.maxLifetimeMs ==> ClampLifetime(wish, l) == l.maxLifetimeMs
    ensures 0 < wish < l.minLifetimeMs ==> ClampLifetime(wish, l) == l.minLifetimeMs
  {
  }

  // ---------------------------------------------------------------- beginning

  /** A negotiation begins exactly with another node, none pending or active with it, and room for
      one more of each; the request carries what the new entry remembers. */
  lemma BeginOutcome(c: Crypto, self: NodeId, st: NodeState, peer: NodeId, wish: nat, now: int, keyId: Uuid, own: nat)
    requires Sane(st.limits)
    ensures var o := Begin(c, self, st, peer, wish, now, keyId, own);
            && (o.out.Some? <==>
                  && peer != self && peer !in st.pending && peer !in st.active
                  && |st.pending| < st.limits.maxPendingNegotiations && |st.active| < st.limits.maxActiveKeys)
            && (o.out.None? ==> o.state == st)
            && (o.out.Some? ==>
                  && peer in o.state.pending
                  && var entry, request := o.state.pending[peer], o.out.value.payload;
                     && o.state == st.(pending := st.pending[peer := entry])
                     && o.out.value.sender == Some(self) && o.out.value.destination == peer
                     && entry.keyId == keyId && entry.ephemeral == own
                     && entry.expiresAt == now + st.limits.pendingTimeoutMs
                     && InRange(entry.requestedLifetimeMs, st.limits)
                     && (wish == 0 ==> entry.requestedLifetimeMs == st.limits.defaultLifetimeMs)
                     && request == Request(Some(keyId), Some(c.publicKey(own)), entry.requestedLifetimeMs, 1))
  {
    LifetimeChosen(wish, st.limits);
  }

  // ---------------------------------------------------------------- requests

  /** Key id and public key are there, the id has 16 bytes, the algorithm is the known one. */
  predicate WellFormed(p: Payload)
    requires p.Request? || p.Reply?
  {
    p.keyId.Some? && |p.keyId.value| == 16 && p.ephemeral.Some?
  }

  /** A request is granted exactly if it is well formed, names the one algorithm, comes from a node
      with neither a negotiation nor a key here, finds room, and its key decodes and agrees. */
  predicate Grantable(c: Crypto, st: NodeState, sender: NodeId, p: Payload, own: nat)
    requires p.Request?
  {
    && WellFormed(p) && p.algorithm == 1 && sender !in st.pending && sender !in st.active
    && |st.active| < st.limits.maxActiveKeys
    && c.decodes(p.ephemeral.value) && c.agree(own, p.ephemeral.value).Some?
  }

  lemma RequestOutcome(c: Crypto, self: NodeId, st: NodeState, sender: NodeId, p: Payload, now: int, own: nat)
    requires p.Request? && Sane(st.limits)
    ensures var o := Handle(c, self, st, Some(sender), p, now, own);
            && o.out.Some? && o.out.value.sender == Some(self) && o.out.value.destination == sender
            && var answer := o.out.value.payload;
               && answer.keyId == p.keyId && (answer.Reply? || answer.Error?)
               && (answer.Reply? <==> Grantable(c, st, sender, p, own))
               && (answer.Error? ==> o.state == st)
               && (answer.Reply? ==>
                     && sender in o.state.active
                     && var key := o.state.active[sender];
                        && o.state == st.(active := st.active[sender := key])
                        && key.keyId == p.keyId.value && key.algorithm == 1
                        && key.expiresAt == now + answer.lifetimeMs && InRange(answer.lifetimeMs, st.limits)
                        && (InRange(p.lifetimeMs, st.limits) ==> answer.lifetimeMs == p.lifetimeMs)
                        && answer.ephemeral == Some(c.publicKey(own)) && answer.algorithm == 1)
  {
    LifetimeChosen(p.lifetimeMs, st.limits);
  }

  /** What the code of a refusal tells the asking node. */
  lemma RequestErrorMeans(c: Crypto, self: NodeId, st: NodeState, sender: NodeId, p: Payload, now: int, own: nat)
    requires p.Request? && Handle(c, self, st, Some(sender), p, now, own).out.value.payload.Error?
    ensures match Handle(c, self, st, Some(sender), p, now, own).out.value.payload.code
            case InvalidRequest => !WellFormed(p) || !c.decodes(p.ephemeral.value)
            case UnsupportedAlgorithm => WellFormed(p) && p.algorithm != 1
            case PairNegotiationExists => WellFormed(p) && p.algorithm == 1 && sender in st.pending
            case PairKeyExists => WellFormed(p) && p.algorithm == 1 && sender in st.active
            case KeyLimitReached =>
              && WellFormed(p) && p.algorithm == 1 && sender !in st.pending && sender !in st.active
              && |st.active| >= st.limits.maxActiveKeys
            case KeyIncorrect => WellFormed(p) && c.agree(own, p.ephemeral.value).None?
            case UnknownKey => false
            case Expired => false
  {
  }

  // ---------------------------------------------------------------- replies

  predicate Acceptable(c: Crypto, st: NodeState, sender: NodeId, p: Payload)
    requires p.Reply?
  {
    && WellFormed(p) && p.algorithm == 1
    && sender in st.pending && st.pending[sender].keyId == p.keyId.value
    && (sender in st.active ==> st.limits.maxActiveKeys > 0)
    && (sender !in st.active ==> |st.active| < st.limits.maxActiveKeys)
    && c.decodes(p.ephemeral.value) && c.agree(st.pending[sender].ephemeral, p.ephemeral.value).Some?
  }

  /** A reply is accepted, in silence, exactly if it answers the negotiation pending with its
      sender, finds room, and its key decodes and agrees with the ephemeral key of that
      negotiation; the negotiation is then over. */
  lemma ReplyOutcome(c: Crypto, self: NodeId, st: NodeState, sender: NodeId, p: Payload, now: int, own: nat)
    requires p.Reply? && Sane(st.limits)
    ensures var o := Handle(c, self, st, Some(sender), p, now, own);
            && (o.out.None? <==> Acceptable(c, st, sender, p))
            && (o.out.None? ==>
                  && sender in o.state.active
                  && var key := o.state.active[sender];
                     && o.state == st.(active := st.active[sender := key], pending := st.pending - {sender})
                     && key.keyId == p.keyId.value && key.algorithm == 1
                     && InRange(key.expiresAt - now, st.limits)
                     && (InRange(p.lifetimeMs, st.limits) ==> key.expiresAt == now + p.lifetimeMs)
                     && (p.lifetimeMs == 0 && InRange(st.pending[sender].requestedLifetimeMs, st.limits) ==>
                           key.expiresAt == now + st.pending[sender].requestedLifetimeMs))
            && (o.out.Some? ==>
                  && o.out.value.sender == Some(self) && o.out.value.destination == sender
                  && o.out.value.payload.Error? && o.out.value.payload.keyId == p.keyId
                  && o.state.active == st.active)
  {
    LifetimeChosen(p.lifetimeMs, st.limits);
  }

  /** What the code of a refusal tells the answering node, and when the negotiation is given up:
      if there is no room for its key, or the keys do not agree. */
  lemma ReplyErrorMeans(c: Crypto, self: NodeId, st: NodeState, sender: NodeId, p: Payload, now: int, own: nat)
    requires p.Reply? && Handle(c, self, st, Some(sender), p, now, own).out.Some?
    ensures var o := Handle(c, self, st, Some(sender), p, now, own);
            var asked := WellFormed(p) && p.algorithm == 1 && sender in st.pending
                         && st.pending[sender].keyId == p.keyId.value;
            && o.out.value.payload.Error?
            && (match o.out.value.payload.code
                case InvalidRequest => o.state == st && (!WellFormed(p) || !c.decodes(p.ephemeral.value))
                case UnsupportedAlgorithm => o.state == st && WellFormed(p) && p.algorithm != 1
                case UnknownKey => o.state == st && WellFormed(p) && sender !in st.pending
                case KeyLimitReached => asked && o.state == st.(pending := st.pending - {sender})
                case KeyIncorrect =>
                  && WellFormed(p) && sender in st.pending
                  && (asked ==> c.agree(st.pending[sender].ephemeral, p.ephemeral.value).None?)
                  && o.state == (if asked then st.(pending := st.pending - {sender}) else st)
                case _ => false)
  {
  }

  // ---------------------------------------------------------------- drops and errors

  /** A drop notification removes the named key or negotiation with its sender and nothing else;
      the sender hears back unless the key was active. */
  lemma DropOutcome(c: Crypto, self: NodeId, st: NodeState, sender: NodeId, p: Payload, now: int, own: nat)
    requires p.Drop? && p.keyId.Some? && |p.keyId.value| == 16
    ensures var o := Handle(c, self, st, Some(sender), p, now, own);
            var k := p.keyId.value;
            var held := sender in st.active && st.active[sender].keyId == k;
            && o.state.active == (if held then st.active - {sender} else st.active)
            && o.state.pending == (if sender in st.pending && st.pending[sender].keyId == k
                                   then st.pending - {sender} else st.pending)
            && (o.out.None? <==> held)
            && (o.out.Some? ==> o.out.value == Envelope(Some(self), sender, Error(Some(k), if sender in st.active
                                                                                           then KeyIncorrect
                                                                                           else UnknownKey)))
  {
  }

  /** An error is never answered. It ends the negotiation it names, and the key it names only with
      the codes that say the other side does not have it. */
  lemma ErrorOutcome(c: Crypto, self: NodeId, st: NodeState, sender: NodeId, p: Payload, now: int, own: nat)
    requires p.Error? && p.keyId.Some? && |p.keyId.value| == 16
    ensures var o := Handle(c, self, st, Some(sender), p, now, own);
            var k := p.keyId.value;
            && o.out.None?
            && o.state.pending == (if sender in st.pending && st.pending[sender].keyId == k
                                   then st.pending - {sender} else st.pending)
            && o.state.active == (if && sender in st.active && st.active[sender].keyId == k
                                     && (p.code.KeyIncorrect? || p.code.UnknownKey? || p.code.Expired?)
                                  then st.active - {sender} else st.active)
  {
  }

  /** A local drop names the reason it was given, or "local_drop", and tells the peer exactly if a
      key was held. */
  lemma LocalDropOutcome(self: NodeId, st: NodeState, peer: NodeId, reason: string)
    ensures var o := LocalDrop(self, st, peer, reason);
            && peer !in o.state.active && peer !in o.state.pending
            && (o.out.Some? <==> peer in st.active)
            && (o.out.Some? ==>
                  && o.out.value.sender == Some(self) && o.out.value.destination == peer && o.out.value.payload.Drop?
                  && o.out.value.payload.keyId == Some(st.active[peer].keyId)
                  && o.out.value.payload.reason == (if reason == "" then "local_drop" else reason))
  {
  }
}
