/** The negotiation state of one node as the object that common/node.cpp updates in place:
    two maps keyed by peer, the limits, and the queue of outgoing messages. Every method is
    proved to do what the functions of AesNegotiation say. */
module RspNode {
  import opened Common
  import opened AesNegotiation

  /** After is before with exactly the messages of sent appended, in some order. */
  ghost predicate Queued(before: seq<Envelope>, after: seq<Envelope>, sent: multiset<Envelope>) {
    before <= after && multiset(after[|before|..]) == sent
  }

  ghost function DropsFor(self: NodeId, st: NodeState, peers: set<NodeId>): set<Envelope>
    requires peers <= st.active.Keys
  {
    set p | p in peers :: DropTo(self, p, st.active[p].keyId, "expired")
  }

  lemma DropsForGrows(self: NodeId, st: NodeState, peers: set<NodeId>, p: NodeId)
    requires peers <= st.active.Keys && p in st.active && p !in peers
    ensures var drop := DropTo(self, p, st.active[p].keyId, "expired");
            drop !in DropsFor(self, st, peers)
            && multiset(DropsFor(self, st, peers + {p})) == multiset(DropsFor(self, st, peers)) + multiset{drop}
  {
    var drop := DropTo(self, p, st.active[p].keyId, "expired");
    assert DropsFor(self, st, peers + {p}) == DropsFor(self, st, peers) + {drop};
  }

  class Node {
    const id: NodeId
    const crypto: Crypto
    var limits: Limits
    var pendingByPeer: map<NodeId, Pending>
    var activeByPeer: map<NodeId, Active>
    var outbox: seq<Envelope>

    constructor (id: NodeId, crypto: Crypto)
      ensures this.id == id && this.crypto == crypto
      ensures pendingByPeer == map[] && activeByPeer == map[] && outbox == []
      ensures Sane(limits)
    {
      this.id, this.crypto := id, crypto;
      limits := Limits(64, 64, 5 * 60 * 1000, 1000, 60 * 60 * 1000, 15 * 1000);
      pendingByPeer, activeByPeer, outbox := map[], map[], [];
    }

    function State(): NodeState
      reads this
    {
      NodeState(limits, pendingByPeer, activeByPeer)
    }

    method SetAesNegotiationLimits(requested: Limits)
      modifies this`limits
      ensures State() == old(State()).(limits := Sanitize(requested))
      ensures Sane(limits)
    {
      var sanitized := requested;
      if sanitized.minLifetimeMs == 0 {
        sanitized := sanitized.(minLifetimeMs := 1);
      }
      if sanitized.maxLifetimeMs < sanitized.minLifetimeMs {
        sanitized := sanitized.(maxLifetimeMs := sanitized.minLifetimeMs);
      }
      sanitized := sanitized.(
        defaultLifetimeMs := Clamp(sanitized.defaultLifetimeMs, sanitized.minLifetimeMs, sanitized.maxLifetimeMs));
      if sanitized.pendingTimeoutMs == 0 {
        sanitized := sanitized.(pendingTimeoutMs := 1);
      }
      limits := sanitized;
    }

    method ProcessExpiredAesKeys(now: int)
      modifies this`pendingByPeer, this`activeByPeer, this`outbox
      ensures State() == Sweep(old(State()), now)
      ensures Queued(old(outbox), outbox, multiset(SweepDrops(id, old(State()), now)))
    {
      var dropNotifications := EraseActiveExpired(now);
      ErasePendingExpired(now);
      outbox := outbox + dropNotifications;
      assert outbox[|old(outbox)|..] == dropNotifications;
    }

    /** Erases expired keys one at a time and collects one notification for each. */
    method EraseActiveExpired(now: int) returns (dropNotifications: seq<Envelope>)
      modifies this`activeByPeer
      ensures activeByPeer == Sweep(old(State()), now).active
      ensures multiset(dropNotifications) == multiset(SweepDrops(id, old(State()), now))
    {
      ghost var before := State();
      ghost var erased: set<NodeId> := {};
      dropNotifications := [];
      var peers := activeByPeer.Keys;
      while peers != {}
        invariant peers <= before.active.Keys
        invariant erased == set p | p in before.active && p !in peers && before.active[p].expiresAt <= now
        invariant activeByPeer == before.active - erased
        invariant multiset(dropNotifications) == multiset(DropsFor(id, before, erased))
        decreases |peers|
      {
        var peer :| peer in peers;
        var entry := activeByPeer[peer];
        if entry.expiresAt <= now {
          DropsForGrows(id, before, erased, peer);
          dropNotifications := dropNotifications + [DropTo(id, peer, entry.keyId, "expired")];
          activeByPeer := activeByPeer - {peer};
          erased := erased + {peer};
        }
        peers := peers - {peer};
      }
      assert DropsFor(id, before, erased) == SweepDrops(id, before, now);
    }

    method ErasePendingExpired(now: int)
      modifies this`pendingByPeer
      ensures pendingByPeer
           == map p | p in old(pendingByPeer) && old(pendingByPeer)[p].expiresAt > now :: old(pendingByPeer)[p]
    {
      ghost var before := pendingByPeer;
      var peers := pendingByPeer.Keys;
      while peers != {}
        invariant peers <= before.Keys
        invariant pendingByPeer == map p | p in before && (p in peers || before[p].expiresAt > now) :: before[p]
        decreases |peers|
      {
        var peer :| peer in peers;
        if pendingByPeer[peer].expiresAt <= now {
          pendingByPeer := pendingByPeer - {peer};
        }
        peers := peers - {peer};
      }
    }

    /** The sweep, then the negotiation request; both clock readings are inputs. */
    method BeginAesKeyNegotiation(peer: NodeId, requestedMs: nat, sweepNow: int, now: int,
                                  keyId: Uuid, ephemeral: nat) returns (begun: bool)
      modifies this`pendingByPeer, this`activeByPeer, this`outbox
      ensures peer == id ==> !begun && State() == old(State()) && outbox == old(outbox)
      ensures peer != id ==>
                var o := Begin(crypto, id, Sweep(old(State()), sweepNow), peer, requestedMs, now, keyId, ephemeral);
                && State() == o.state && begun == o.out.Some?
                && Queued(old(outbox), outbox, multiset(SweepDrops(id, old(State()), sweepNow)) + Sent(o.out))
    {
      if peer == id { return false; }
      ProcessExpiredAesKeys(sweepNow);
      var request := RegisterPending(peer, requestedMs, now, keyId, ephemeral);
      if request.None? { return false; }
      PushOutput(request.value, old(outbox));
      return true;
    }

    /** The locked region of beginAesKeyNegotiation. */
    method RegisterPending(peer: NodeId, requestedMs: nat, now: int, keyId: Uuid, ephemeral: nat)
      returns (request: Option<Envelope>)
      requires peer != id
      modifies this`pendingByPeer
      ensures Outcome(State(), request) == Begin(crypto, id, old(State()), peer, requestedMs, now, keyId, ephemeral)
    {
      if peer in pendingByPeer || peer in activeByPeer { return None; }
      if limits.maxPendingNegotiations == 0 || |pendingByPeer| >= limits.maxPendingNegotiations { return None; }
      if limits.maxActiveKeys == 0 || |activeByPeer| >= limits.maxActiveKeys { return None; }
      var lifetime := ClampLifetime(requestedMs, limits);
      pendingByPeer := pendingByPeer[
        peer := Pending(keyId, ephemeral, P256_SHA256_AES256, lifetime, now + limits.pendingTimeoutMs)];
      return Some(Envelope(Some(id), peer,
                           Request(Some(keyId), Some(crypto.publicKey(ephemeral)), lifetime, P256_SHA256_AES256)));
    }

    /** The output queue is unbounded, so a push always succeeds. */
    method PushOutput(message: Envelope, ghost start: seq<Envelope>)
      requires start <= outbox
      modifies this`outbox
      ensures outbox == old(outbox) + [message]
      ensures Queued(start, outbox, multiset(old(outbox)[|start|..]) + multiset{message})
    {
      outbox := outbox + [message];
      assert outbox[|start|..] == old(outbox)[|start|..] + [message];
    }

    method DropAesKey(peer: NodeId, reason: string, sweepNow: int) returns (dropped: bool)
      modifies this`pendingByPeer, this`activeByPeer, this`outbox
      ensures var o := LocalDrop(id, Sweep(old(State()), sweepNow), peer, reason);
              && State() == o.state && dropped == o.out.Some?
              && Queued(old(outbox), outbox, multiset(SweepDrops(id, old(State()), sweepNow)) + Sent(o.out))
    {
      ProcessExpiredAesKeys(sweepNow);
      pendingByPeer := pendingByPeer - {peer};
      if peer !in activeByPeer { return false; }
      var drop := DropTo(id, peer, activeByPeer[peer].keyId, if reason == "" then "local_drop" else reason);
      activeByPeer := activeByPeer - {peer};
      PushOutput(drop, old(outbox));
      return true;
    }

    method HandleNegotiationError(sender: NodeId, p: Payload)
      requires p.Error?
      modifies this`pendingByPeer, this`activeByPeer
      ensures State() == HandleError(old(State()), sender, p)
    {
      if !ValidKeyId(p.keyId) { return; }
      if sender in pendingByPeer && pendingByPeer[sender].keyId == p.keyId.value {
        pendingByPeer := pendingByPeer - {sender};
      }
      if p.code == KeyIncorrect || p.code == UnknownKey || p.code == Expired {
        if sender in activeByPeer && activeByPeer[sender].keyId == p.keyId.value {
          activeByPeer := activeByPeer - {sender};
        }
      }
    }

    method HandleNegotiationRequest(sender: NodeId, p: Payload, now: int, ephemeral: nat) returns (reply: Envelope)
      requires p.Request?
      modifies this`activeByPeer
      ensures Outcome(State(), Some(reply)) == HandleRequest(crypto, id, old(State()), sender, p, now, ephemeral)
    {
      if !ValidKeyId(p.keyId) || p.ephemeral.None? { return ErrorTo(id, sender, p.keyId, InvalidRequest); }
      if p.algorithm != P256_SHA256_AES256 { return ErrorTo(id, sender, p.keyId, UnsupportedAlgorithm); }
      if sender in pendingByPeer { return ErrorTo(id, sender, p.keyId, PairNegotiationExists); }
      if sender in activeByPeer { return ErrorTo(id, sender, p.keyId, PairKeyExists); }
      if limits.maxActiveKeys == 0 || |activeByPeer| >= limits.maxActiveKeys {
        return ErrorTo(id, sender, p.keyId, KeyLimitReached);
      }
      if !crypto.decodes(p.ephemeral.value) { return ErrorTo(id, sender, p.keyId, InvalidRequest); }
      var secret := crypto.agree(ephemeral, p.ephemeral.value);
      if secret.None? { return ErrorTo(id, sender, p.keyId, KeyIncorrect); }
      var accepted := ClampLifetime(p.lifetimeMs, limits);
      activeByPeer := activeByPeer[
        sender := Active(p.keyId.value, KeyMaterial(crypto, secret.value, p.keyId.value, id, sender),
                         p.algorithm, now + accepted)];
      return Envelope(Some(id), sender, Reply(p.keyId, Some(crypto.publicKey(ephemeral)), accepted, p.algorithm));
    }

    method HandleNegotiationReply(sender: NodeId, p: Payload, now: int) returns (out: Option<Envelope>)
      requires p.Reply?
      modifies this`pendingByPeer, this`activeByPeer
      ensures Outcome(State(), out) == HandleReply(crypto, id, old(State()), sender, p, now)
    {
      if !ValidKeyId(p.keyId) || p.ephemeral.None? { return Some(ErrorTo(id, sender, p.keyId, InvalidRequest)); }
      if p.algorithm != P256_SHA256_AES256 { return Some(ErrorTo(id, sender, p.keyId, UnsupportedAlgorithm)); }
      if sender !in pendingByPeer { return Some(ErrorTo(id, sender, p.keyId, UnknownKey)); }
      var pending := pendingByPeer[sender];
      if pending.keyId != p.keyId.value { return Some(ErrorTo(id, sender, p.keyId, KeyIncorrect)); }
      if limits.maxActiveKeys == 0 || (sender !in activeByPeer && |activeByPeer| >= limits.maxActiveKeys) {
        pendingByPeer := pendingByPeer - {sender};
        return Some(ErrorTo(id, sender, p.keyId, KeyLimitReached));
      }
      if !crypto.decodes(p.ephemeral.value) { return Some(ErrorTo(id, sender, p.keyId, InvalidRequest)); }
      var secret := crypto.agree(pending.ephemeral, p.ephemeral.value);
      if secret.None? {
        pendingByPeer := pendingByPeer - {sender};
        return Some(ErrorTo(id, sender, p.keyId, KeyIncorrect));
      }
      var accepted := ClampLifetime(if p.lifetimeMs == 0 then pending.requestedLifetimeMs else p.lifetimeMs, limits);
      activeByPeer := activeByPeer[
        sender := Active(pending.keyId, KeyMaterial(crypto, secret.value, p.keyId.value, id, sender),
                         p.algorithm, now + accepted)];
      pendingByPeer := pendingByPeer - {sender};
      return None;
    }

    method HandleDropNotification(sender: NodeId, p: Payload) returns (out: Option<Envelope>)
      requires p.Drop?
      modifies this`pendingByPeer, this`activeByPeer
      ensures Outcome(State(), out) == HandleDrop(id, old(State()), sender, p)
    {
      out := None;
      if !ValidKeyId(p.keyId) { return Some(ErrorTo(id, sender, p.keyId, InvalidRequest)); }
      if sender !in activeByPeer {
        out := Some(ErrorTo(id, sender, p.keyId, UnknownKey));
      } else if activeByPeer[sender].keyId != p.keyId.value {
        out := Some(ErrorTo(id, sender, p.keyId, KeyIncorrect));
      } else {
        activeByPeer := activeByPeer - {sender};
      }
      if sender in pendingByPeer && pendingByPeer[sender].keyId == p.keyId.value {
        pendingByPeer := pendingByPeer - {sender};
      }
    }

    /** handleAesNegotiationMessage: a sweep, then the handler for the payload, then the answer. */
    method HandleAesNegotiationMessage(sender: Option<NodeId>, p: Payload, sweepNow: int, now: int, ephemeral: nat)
      modifies this`pendingByPeer, this`activeByPeer, this`outbox
      ensures var o := Handle(crypto, id, Sweep(old(State()), sweepNow), sender, p, now, ephemeral);
              && State() == o.state
              && Queued(old(outbox), outbox, multiset(SweepDrops(id, old(State()), sweepNow)) + Sent(o.out))
    {
      ProcessExpiredAesKeys(sweepNow);
      var out: Option<Envelope> := None;
      if sender.Some? {
        match p {
          case Error(_, _) =>
            HandleNegotiationError(sender.value, p);
          case Request(_, _, _, _) =>
            var reply := HandleNegotiationRequest(sender.value, p, now, ephemeral);
            out := Some(reply);
          case Reply(_, _, _, _) =>
            out := HandleNegotiationReply(sender.value, p, now);
          case Drop(_, _) =>
            out := HandleDropNotification(sender.value, p);
        }
      }
      if out.Some? {
        PushOutput(out.value, old(outbox));
      }
    }
  }
}
