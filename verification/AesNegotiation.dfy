/** AES key negotiation of one node (common/node.cpp): the state kept per peer and the effect
    of every operation on it, as functions of the state. Real cryptography is a parameter. */
module AesNegotiation {
  import opened Common

  type NodeId = Uuid

  // ---------------------------------------------------------------- data

  /** The foreign calls: public half of an ephemeral key, whether a public key decodes, ECDH
      (which may fail), and SHA-256. */
  datatype Crypto = Crypto(
    publicKey: nat -> Bytes,
    decodes: Bytes -> bool,
    agree: (nat, Bytes) -> Option<Bytes>,
    sha256: Bytes -> Bytes)
  {
    /** The one law of Diffie-Hellman that the protocol relies on. */
    ghost predicate Symmetric() {
      forall a: nat, b: nat :: agree(a, publicKey(b)) == agree(b, publicKey(a))
    }
  }

  datatype Limits = Limits(
    maxActiveKeys: nat,
    maxPendingNegotiations: nat,
    defaultLifetimeMs: nat,
    minLifetimeMs: nat,
    maxLifetimeMs: nat,
    pendingTimeoutMs: nat)

  datatype Pending = Pending(
    keyId: Bytes, ephemeral: nat, algorithm: nat, requestedLifetimeMs: nat, expiresAt: int)

  datatype Active = Active(keyId: Bytes, keyMaterial: Bytes, algorithm: nat, expiresAt: int)

  datatype NodeState = NodeState(
    limits: Limits,
    pending: map<NodeId, Pending>,
    active: map<NodeId, Active>)

  datatype ErrorCode =
    | InvalidRequest
    | UnsupportedAlgorithm
    | PairNegotiationExists
    | PairKeyExists
    | KeyLimitReached
    | UnknownKey
    | KeyIncorrect
    | Expired

  datatype Payload =
    | Request(keyId: Option<Bytes>, ephemeral: Option<Bytes>, lifetimeMs: nat, algorithm: nat)
    | Reply(keyId: Option<Bytes>, ephemeral: Option<Bytes>, lifetimeMs: nat, algorithm: nat)
    | Drop(keyId: Option<Bytes>, reason: string)
    | Error(keyId: Option<Bytes>, code: ErrorCode)

  datatype Envelope = Envelope(sender: Option<NodeId>, destination: NodeId, payload: Payload)

  /** The state after an operation and the message it sends, if any. */
  datatype Outcome = Outcome(state: NodeState, out: Option<Envelope>)

  function Sent(out: Option<Envelope>): multiset<Envelope> {
    if out.Some? then multiset{out.value} else multiset{}
  }

  const P256_SHA256_AES256: nat := 1

  /** "rsp-aes-negotiation-v1" */
  const KDF_CONTEXT: Bytes :=
    [114, 115, 112, 45, 97, 101, 115, 45, 110, 101, 103, 111, 116, 105, 97, 116, 105, 111, 110, 45, 118, 49]

  // ---------------------------------------------------------------- helpers

  function Sanitize(l: Limits): Limits {
    var low := if l.minLifetimeMs == 0 then 1 else l.minLifetimeMs;
    var high := if l.maxLifetimeMs < low then low else l.maxLifetimeMs;
    l.(minLifetimeMs := low,
       maxLifetimeMs := high,
       defaultLifetimeMs := Clamp(l.defaultLifetimeMs, low, high),
       pendingTimeoutMs := if l.pendingTimeoutMs == 0 then 1 else l.pendingTimeoutMs)
  }

  predicate Sane(l: Limits) {
    && 1 <= l.minLifetimeMs <= l.maxLifetimeMs
    && l.minLifetimeMs <= l.defaultLifetimeMs <= l.maxLifetimeMs
    && 1 <= l.pendingTimeoutMs
  }

  function Clamp(value: nat, low: nat, high: nat): nat {
    if value < low then low else if high < value then high else value
  }

  function ClampLifetime(requestedMs: nat, l: Limits): nat {
    Clamp(if requestedMs == 0 then l.defaultLifetimeMs else requestedMs, l.minLifetimeMs, l.maxLifetimeMs)
  }

  /** Byte-wise order of two node ids. */
  predicate LexLe(a: Bytes, b: Bytes) {
    a == [] || (b != [] && (a[0] < b[0] || (a[0] == b[0] && LexLe(a[1..], b[1..]))))
  }

  lemma {:induction false} LexLeOrder(a: Bytes, b: Bytes)
    ensures LexLe(a, b) || LexLe(b, a)
    ensures LexLe(a, b) && LexLe(b, a) ==> a == b
  {
    if a != [] && b != [] { LexLeOrder(a[1..], b[1..]); }
  }

  function KeyMaterial(c: Crypto, secret: Bytes, keyId: Bytes, first: NodeId, second: NodeId): Bytes {
    var lower := if LexLe(first, second) then first else second;
    var upper := if LexLe(first, second) then second else first;
    c.sha256(secret + keyId + lower + upper + KDF_CONTEXT)
  }

  /** Both ends of a pair hash the same bytes, whichever end names itself first. */
  lemma KeyMaterialSymmetric(c: Crypto, secret: Bytes, keyId: Bytes, a: NodeId, b: NodeId)
    ensures KeyMaterial(c, secret, keyId, a, b) == KeyMaterial(c, secret, keyId, b, a)
  {
    LexLeOrder(a, b);
  }

  predicate ValidKeyId(k: Option<Bytes>) {
    k.Some? && |k.value| == 16
  }

  function ErrorTo(self: NodeId, peer: NodeId, keyId: Option<Bytes>, code: ErrorCode): Envelope {
    Envelope(Some(self), peer, Error(keyId, code))
  }

  function DropTo(self: NodeId, peer: NodeId, keyId: Bytes, reason: string): Envelope {
    Envelope(Some(self), peer, Drop(Some(keyId), reason))
  }

  // ---------------------------------------------------------------- operations

  /** beginAesKeyNegotiation, after its expiry sweep. */
  function Begin(c: Crypto, self: NodeId, st: NodeState, peer: NodeId, requestedMs: nat,
                 now: int, keyId: Uuid, ephemeral: nat): Outcome
  {
    if || peer == self
       || peer in st.pending || peer in st.active
       || st.limits.maxPendingNegotiations == 0 || |st.pending| >= st.limits.maxPendingNegotiations
       || st.limits.maxActiveKeys == 0 || |st.active| >= st.limits.maxActiveKeys
    then Outcome(st, None)
    else
      var lifetime := ClampLifetime(requestedMs, st.limits);
      var entry := Pending(keyId, ephemeral, P256_SHA256_AES256, lifetime, now + st.limits.pendingTimeoutMs);
      Outcome(
        st.(pending := st.pending[peer := entry]),
        Some(Envelope(Some(self), peer,
                      Request(Some(keyId), Some(c.publicKey(ephemeral)), lifetime, P256_SHA256_AES256))))
  }

  /** dropAesKey, after its expiry sweep. */
  function LocalDrop(self: NodeId, st: NodeState, peer: NodeId, reason: string): Outcome {
    var st' := st.(pending := st.pending - {peer});
    if peer !in st.active then Outcome(st', None)
    else Outcome(
      st'.(active := st.active - {peer}),
      Some(DropTo(self, peer, st.active[peer].keyId, if reason == "" then "local_drop" else reason)))
  }

  /** processExpiredAesKeys: what is kept, and the notifications sent. */
  function Sweep(st: NodeState, now: int): NodeState {
    st.(active := map p | p in st.active && st.active[p].expiresAt > now :: st.active[p],
        pending := map p | p in st.pending && st.pending[p].expiresAt > now :: st.pending[p])
  }

  function SweepDrops(self: NodeId, st: NodeState, now: int): set<Envelope> {
    set p | p in st.active && st.active[p].expiresAt <= now :: DropTo(self, p, st.active[p].keyId, "expired")
  }

  /** handleAesKeyNegotiationError. */
  function HandleError(st: NodeState, sender: NodeId, p: Payload): NodeState
    requires p.Error?
  {
    if !ValidKeyId(p.keyId) then st
    else
      var keyId := p.keyId.value;
      var st1 := if sender in st.pending && st.pending[sender].keyId == keyId
                 then st.(pending := st.pending - {sender}) else st;
      if && p.code in {KeyIncorrect, UnknownKey, Expired}
         && sender in st.active && st.active[sender].keyId == keyId
      then st1.(active := st.active - {sender}) else st1
  }

  /** Why a request is refused, or None if it is accepted. */
  function RequestRefusal(c: Crypto, st: NodeState, sender: NodeId, p: Payload, ephemeral: nat): Option<ErrorCode>
    requires p.Request?
  {
    if !ValidKeyId(p.keyId) || p.ephemeral.None? then Some(InvalidRequest)
    else if p.algorithm != P256_SHA256_AES256 then Some(UnsupportedAlgorithm)
    else if sender in st.pending then Some(PairNegotiationExists)
    else if sender in st.active then Some(PairKeyExists)
    else if st.limits.maxActiveKeys == 0 || |st.active| >= st.limits.maxActiveKeys then Some(KeyLimitReached)
    else if !c.decodes(p.ephemeral.value) then Some(InvalidRequest)
    else if c.agree(ephemeral, p.ephemeral.value).None? then Some(KeyIncorrect)
    else None
  }

  function HandleRequest(c: Crypto, self: NodeId, st: NodeState, sender: NodeId, p: Payload,
                         now: int, ephemeral: nat): Outcome
    requires p.Request?
  {
    var refusal := RequestRefusal(c, st, sender, p, ephemeral);
    if refusal.Some? then Outcome(st, Some(ErrorTo(self, sender, p.keyId, refusal.value)))
    else
      var keyId := p.keyId.value;
      var secret := c.agree(ephemeral, p.ephemeral.value).value;
      var lifetime := ClampLifetime(p.lifetimeMs, st.limits);
      var key := Active(keyId, KeyMaterial(c, secret, keyId, self, sender), p.algorithm, now + lifetime);
      Outcome(
        st.(active := st.active[sender := key]),
        Some(Envelope(Some(self), sender,
                      Reply(Some(keyId), Some(c.publicKey(ephemeral)), lifetime, p.algorithm))))
  }

  /** Why a reply is refused, or None if it is accepted. */
  function ReplyRefusal(c: Crypto, st: NodeState, sender: NodeId, p: Payload): Option<ErrorCode>
    requires p.Reply?
  {
    if !ValidKeyId(p.keyId) || p.ephemeral.None? then Some(InvalidRequest)
    else if p.algorithm != P256_SHA256_AES256 then Some(UnsupportedAlgorithm)
    else if sender !in st.pending then Some(UnknownKey)
    else if st.pending[sender].keyId != p.keyId.value then Some(KeyIncorrect)
    else if || st.limits.maxActiveKeys == 0
            || (sender !in st.active && |st.active| >= st.limits.maxActiveKeys) then Some(KeyLimitReached)
    else if !c.decodes(p.ephemeral.value) then Some(InvalidRequest)
    else if c.agree(st.pending[sender].ephemeral, p.ephemeral.value).None? then Some(KeyIncorrect)
    else None
  }

  /** Whether refusing a reply also abandons the pending negotiation. */
  predicate ReplyAbandons(c: Crypto, st: NodeState, sender: NodeId, p: Payload)
    requires p.Reply?
  {
    && ValidKeyId(p.keyId)
    && sender in st.pending && st.pending[sender].keyId == p.keyId.value
    && ReplyRefusal(c, st, sender, p) in {Some(KeyLimitReached), Some(KeyIncorrect)}
  }

  function AcceptedLifetime(st: NodeState, sender: NodeId, p: Payload): nat
    requires p.Reply? && sender in st.pending
  {
    ClampLifetime(if p.lifetimeMs == 0 then st.pending[sender].requestedLifetimeMs else p.lifetimeMs, st.limits)
  }

  function HandleReply(c: Crypto, self: NodeId, st: NodeState, sender: NodeId, p: Payload, now: int): Outcome
    requires p.Reply?
  {
    var refusal := ReplyRefusal(c, st, sender, p);
    if refusal.Some? then
      Outcome(
        if ReplyAbandons(c, st, sender, p) then st.(pending := st.pending - {sender}) else st,
        Some(ErrorTo(self, sender, p.keyId, refusal.value)))
    else
      var entry := st.pending[sender];
      var secret := c.agree(entry.ephemeral, p.ephemeral.value).value;
      var key := Active(entry.keyId, KeyMaterial(c, secret, p.keyId.value, self, sender), p.algorithm,
                        now + AcceptedLifetime(st, sender, p));
      Outcome(st.(active := st.active[sender := key], pending := st.pending - {sender}), None)
  }

  function HandleDrop(self: NodeId, st: NodeState, sender: NodeId, p: Payload): Outcome
    requires p.Drop?
  {
    if !ValidKeyId(p.keyId) then Outcome(st, Some(ErrorTo(self, sender, p.keyId, InvalidRequest)))
    else
      var keyId := p.keyId.value;
      var pending := if sender in st.pending && st.pending[sender].keyId == keyId
                     then st.pending - {sender} else st.pending;
      if sender !in st.active then
        Outcome(st.(pending := pending), Some(ErrorTo(self, sender, p.keyId, UnknownKey)))
      else if st.active[sender].keyId != keyId then
        Outcome(st.(pending := pending), Some(ErrorTo(self, sender, p.keyId, KeyIncorrect)))
      else
        Outcome(st.(pending := pending, active := st.active - {sender}), None)
  }

  /** handleAesNegotiationMessage, after its expiry sweep. */
  function Handle(c: Crypto, self: NodeId, st: NodeState, sender: Option<NodeId>, p: Payload,
                  now: int, ephemeral: nat): Outcome
  {
    if sender.None? then Outcome(st, None)
    else
      match p
      case Request(_, _, _, _) => HandleRequest(c, self, st, sender.value, p, now, ephemeral)
      case Reply(_, _, _, _) => HandleReply(c, self, st, sender.value, p, now)
      case Drop(_, _) => HandleDrop(self, st, sender.value, p)
      case Error(_, _) => Outcome(HandleError(st, sender.value, p), None)
  }

  // ---------------------------------------------------------------- properties of one step

  lemma SanitizeSane(l: Limits)
    ensures Sane(Sanitize(l))
    ensures Sane(l) ==> Sanitize(l) == l
  {
  }

  /** No peer is both pending and active. */
  predicate Exclusive(st: NodeState) {
    forall q | q in st.pending :: q !in st.active
  }

  /** An operation that adds an entry leaves its map within the limit in force. */
  predicate WithinLimits(before: NodeState, after: NodeState) {
    && (|after.active| > |before.active| ==> |after.active| <= after.limits.maxActiveKeys)
    && (|after.pending| > |before.pending| ==> |after.pending| <= after.limits.maxPendingNegotiations)
  }

  lemma AdditionGrows<V>(m: map<NodeId, V>, k: NodeId, v: V)
    ensures m[k := v].Keys == m.Keys + {k}
    ensures |m[k := v]| == if k in m then |m| else |m| + 1
  {
    assert m[k := v].Keys == m.Keys + {k};
    if k in m { assert m.Keys + {k} == m.Keys; }
  }

  lemma BeginKeeps(c: Crypto, self: NodeId, st: NodeState, peer: NodeId, requestedMs: nat,
                   now: int, keyId: Uuid, ephemeral: nat)
    requires Exclusive(st)
    ensures var o := Begin(c, self, st, peer, requestedMs, now, keyId, ephemeral);
            Exclusive(o.state) && WithinLimits(st, o.state)
  {
    var o := Begin(c, self, st, peer, requestedMs, now, keyId, ephemeral);
    if o.out.Some? {
      AdditionGrows(st.pending, peer, o.state.pending[peer]);
    }
  }

  lemma ForgetsKeeps(st: NodeState, st': NodeState)
    requires Exclusive(st) && Forgets(st, st')
    ensures Exclusive(st') && WithinLimits(st, st')
  {
    assert st'.pending.Keys <= st.pending.Keys && st'.active.Keys <= st.active.Keys;
    SubsetCardinality(st'.pending.Keys, st.pending.Keys);
    SubsetCardinality(st'.active.Keys, st.active.Keys);
  }

  /** st' is st with a key for q installed, and perhaps pending entries gone. */
  predicate Installs(st: NodeState, st': NodeState, q: NodeId) {
    && st'.limits == st.limits && q in st'.active && q !in st'.pending
    && st'.active == st.active[q := st'.active[q]]
    && forall x | x in st'.pending :: x in st.pending && st'.pending[x] == st.pending[x]
  }

  lemma InstallsKeeps(st: NodeState, st': NodeState, q: NodeId)
    requires Exclusive(st) && Installs(st, st', q)
    requires q !in st.active ==> |st.active| < st.limits.maxActiveKeys
    ensures Exclusive(st') && WithinLimits(st, st')
  {
    AdditionGrows(st.active, q, st'.active[q]);
    assert st'.pending.Keys <= st.pending.Keys;
    SubsetCardinality(st'.pending.Keys, st.pending.Keys);
  }

  lemma AcceptedReplyInstalls(c: Crypto, self: NodeId, st: NodeState, sender: NodeId, p: Payload, now: int)
    requires p.Reply? && ReplyRefusal(c, st, sender, p).None?
    ensures var o := HandleReply(c, self, st, sender, p, now);
            && Installs(st, o.state, sender) && o.out.None?
            && (sender !in st.active ==> |st.active| < st.limits.maxActiveKeys)
  {
  }

  lemma AcceptedRequestInstalls(c: Crypto, self: NodeId, st: NodeState, sender: NodeId, p: Payload,
                                now: int, ephemeral: nat)
    requires p.Request? && RequestRefusal(c, st, sender, p, ephemeral).None?
    ensures var o := HandleRequest(c, self, st, sender, p, now, ephemeral);
            Installs(st, o.state, sender) && |st.active| < st.limits.maxActiveKeys
  {
  }

  lemma HandleKeeps(c: Crypto, self: NodeId, st: NodeState, sender: Option<NodeId>, p: Payload,
                    now: int, ephemeral: nat)
    requires Exclusive(st)
    ensures var o := Handle(c, self, st, sender, p, now, ephemeral);
            Exclusive(o.state) && WithinLimits(st, o.state)
  {
    if sender.Some? {
      var st' := Handle(c, self, st, sender, p, now, ephemeral).state;
      if p.Request? && RequestRefusal(c, st, sender.value, p, ephemeral).None? {
        AcceptedRequestInstalls(c, self, st, sender.value, p, now, ephemeral);
        InstallsKeeps(st, st', sender.value);
      } else if p.Reply? && ReplyRefusal(c, st, sender.value, p).None? {
        AcceptedReplyInstalls(c, self, st, sender.value, p, now);
        InstallsKeeps(st, st', sender.value);
      } else {
        if p.Drop? || p.Error? { DropOrErrorForgets(c, self, st, sender, p, now, ephemeral); }
        if p.Reply? { RefusedReplyForgets(c, self, st, sender.value, p, now); }
        ForgetsKeeps(st, st');
      }
    }
  }

  lemma LocalDropKeeps(self: NodeId, st: NodeState, peer: NodeId, reason: string)
    requires Exclusive(st)
    ensures var o := LocalDrop(self, st, peer, reason); Exclusive(o.state) && WithinLimits(st, o.state)
  {
    ForgetsKeeps(st, LocalDrop(self, st, peer, reason).state);
  }

  /** Only entries of the earlier state are left, unchanged. */
  predicate Forgets(st: NodeState, st': NodeState) {
    && st'.limits == st.limits
    && (forall q | q in st'.pending :: q in st.pending && st'.pending[q] == st.pending[q])
    && (forall q | q in st'.active :: q in st.active && st'.active[q] == st.active[q])
  }

  lemma DropOrErrorForgets(c: Crypto, self: NodeId, st: NodeState, sender: Option<NodeId>, p: Payload,
                           now: int, ephemeral: nat)
    requires p.Drop? || p.Error?
    ensures var o := Handle(c, self, st, sender, p, now, ephemeral);
            && Forgets(st, o.state)
            && (o.out.Some? ==> o.out.value.sender == Some(self) && o.out.value.payload.Error?
                                && o.out.value.payload.keyId == p.keyId)
  {
  }

  lemma RefusedReplyForgets(c: Crypto, self: NodeId, st: NodeState, sender: NodeId, p: Payload, now: int)
    requires p.Reply? && ReplyRefusal(c, st, sender, p).Some?
    ensures Forgets(st, HandleReply(c, self, st, sender, p, now).state)
  {
  }

  /** After a sweep nothing expired is left and nothing unexpired is lost, and exactly one
      notification went out per swept active key. */
  lemma SweepExact(self: NodeId, st: NodeState, now: int)
    ensures var st' := Sweep(st, now);
            && Forgets(st, st')
            && (forall p | p in st.active :: p in st'.active <==> st.active[p].expiresAt > now)
            && (forall p | p in st.pending :: p in st'.pending <==> st.pending[p].expiresAt > now)
            && |SweepDrops(self, st, now)| == |st.active| - |st'.active|
  {
    SweptCount(self, st, now);
  }

  lemma SweptCount(self: NodeId, st: NodeState, now: int)
    ensures |SweepDrops(self, st, now)| == |st.active| - |Sweep(st, now).active|
  {
    var gone := set p | p in st.active && st.active[p].expiresAt <= now;
    assert st.active.Keys == Sweep(st, now).active.Keys + gone;
    OneDropPerPeer(self, st, gone);
    assert SweepDrops(self, st, now) == set p | p in gone :: DropTo(self, p, st.active[p].keyId, "expired");
  }

  lemma {:induction false} SubsetCardinality<T>(a: set<T>, b: set<T>)
    requires a <= b
    ensures |a| <= |b|
  {
    assert b == a + (b - a);
  }

  lemma {:induction false} OneDropPerPeer(self: NodeId, st: NodeState, peers: set<NodeId>)
    requires peers <= st.active.Keys
    ensures |set p | p in peers :: DropTo(self, p, st.active[p].keyId, "expired")| == |peers|
    decreases |peers|
  {
    if peers != {} {
      var x :| x in peers;
      var rest := peers - {x};
      OneDropPerPeer(self, st, rest);
      var drops := set p | p in rest :: DropTo(self, p, st.active[p].keyId, "expired");
      assert (set p | p in peers :: DropTo(self, p, st.active[p].keyId, "expired"))
          == drops + {DropTo(self, x, st.active[x].keyId, "expired")};
    }
  }

  lemma HandleKeepsLimits(c: Crypto, self: NodeId, st: NodeState, sender: Option<NodeId>, p: Payload,
                          now: int, ephemeral: nat)
    ensures Handle(c, self, st, sender, p, now, ephemeral).state.limits == st.limits
  {
  }

  // ---------------------------------------------------------------- lifetimes

  predicate InRange(ms: nat, l: Limits) {
    l.minLifetimeMs <= ms <= l.maxLifetimeMs
  }

  predicate RangesOverlap(a: Limits, b: Limits) {
    a.minLifetimeMs <= b.maxLifetimeMs && b.minLifetimeMs <= a.maxLifetimeMs
  }

  /** The initiator's clamp, the responder's clamp and the initiator's second clamp leave both
      sides with one lifetime, within both ranges, exactly when the ranges overlap. */
  lemma LifetimeAgreementIff(requestedMs: nat, initiator: Limits, responder: Limits)
    requires Sane(initiator) && Sane(responder)
    ensures var asked := ClampLifetime(requestedMs, initiator);
            var granted := ClampLifetime(asked, responder);
            var kept := ClampLifetime(granted, initiator);
            && (kept == granted <==> RangesOverlap(initiator, responder))
            && (kept == granted ==> InRange(kept, initiator) && InRange(kept, responder))
  {
  }
}
