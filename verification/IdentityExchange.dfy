/** The mutual identity exchange that opens every connection
    (common/message_queue/mq_authn.cpp). */
module IdentityExchange {
  import opened Common

  const NONCE_LENGTH := 16

  datatype Identity = Identity(nonce: Bytes, publicKey: Bytes, bootId: Uuid)

  /** The parts of a message the exchange looks at. */
  datatype Message = Message(
    hasDestination: bool, challenge: Option<Bytes>, identity: Option<Identity>, signature: Option<Bytes>)

  /** nodeIdOf reads a public key and gives its node id; verify checks a signature over an identity. */
  datatype Crypto = Crypto(
    publicKeyOf: Bytes -> Bytes,
    nodeIdOf: Bytes -> Option<Uuid>,
    sign: (Bytes, Identity) -> Bytes,
    verify: (Bytes, Identity, Bytes) -> bool)
  {
    /** What an honest key pair relies on: its key can be read and verifies what it signs. */
    ghost predicate Works(privateKey: Bytes) {
      && nodeIdOf(publicKeyOf(privateKey)).Some?
      && forall i :: verify(publicKeyOf(privateKey), i, sign(privateKey, i))
    }
  }

  datatype Local = Local(privateKey: Bytes, bootId: Uuid, nonce: Bytes)

  function ChallengeMessage(l: Local): Message {
    Message(false, Some(l.nonce), None, None)
  }

  function IdentityMessage(c: Crypto, l: Local, nonce: Bytes): Message {
    var i := Identity(nonce, c.publicKeyOf(l.privateKey), l.bootId);
    Message(false, None, Some(i), Some(c.sign(l.privateKey, i)))
  }

  // ---------------------------------------------------------------- what counts as an answer

  predicate ValidChallenge(m: Message) {
    m.challenge.Some? && !m.hasDestination && m.signature.None? && |m.challenge.value| == NONCE_LENGTH
  }

  /** The node id proved by an identity message that answers the given nonce. */
  function ProvedId(c: Crypto, m: Message, nonce: Bytes): Option<Uuid> {
    if m.challenge.None? && m.identity.Some? && m.signature.Some? && m.identity.value.nonce == nonce
       && c.nodeIdOf(m.identity.value.publicKey).Some?
       && c.verify(m.identity.value.publicKey, m.identity.value, m.signature.value)
    then c.nodeIdOf(m.identity.value.publicKey)
    else None
  }

  /** The two messages an exchange may succeed on, in either order. */
  predicate Answers(c: Crypto, nonce: Bytes, first: Message, second: Message) {
    || (ValidChallenge(first) && ProvedId(c, second, nonce).Some?)
    || (ProvedId(c, first, nonce).Some? && ValidChallenge(second))
  }

  // ---------------------------------------------------------------- one iteration

  /** One side between two iterations of its exchange loop. Its messages travel first in, first
      out; the peer has taken the first peer.read of them. */
  datatype Side = Side(
    local: Local, started: bool, identitySent: bool, identityReceived: bool, failed: bool,
    peer: Option<Uuid>, stored: Option<Identity>, read: nat, out: seq<Message>)

  predicate Done(e: Side) {
    e.started && e.identitySent && e.identityReceived && !e.failed
  }

  /** One iteration of the exchange loop on message m. */
  function Handle(c: Crypto, e: Side, m: Message): Side {
    var e := e.(read := e.read + 1);
    if m.challenge.Some? then
      if !ValidChallenge(m) || e.identitySent then e.(failed := true)
      else e.(identitySent := true, out := e.out + [IdentityMessage(c, e.local, m.challenge.value)])
    else if e.identityReceived || ProvedId(c, m, e.local.nonce).None? then e.(failed := true)
    else e.(identityReceived := true, peer := ProvedId(c, m, e.local.nonce), stored := m.identity)
  }

  /** A side that has sent its challenge, and the side it becomes by reading messages. */
  function Begun(l: Local): Side {
    Side(l, true, false, false, false, None, None, 0, [ChallengeMessage(l)])
  }

  function AfterReading(c: Crypto, e: Side, ms: seq<Message>): Side {
    if ms == [] then e else Handle(c, AfterReading(c, e, ms[..|ms| - 1]), ms[|ms| - 1])
  }

  lemma ReadsOneMore(c: Crypto, e: Side, ms: seq<Message>, i: nat)
    requires i < |ms|
    ensures AfterReading(c, e, ms[..i + 1]) == Handle(c, AfterReading(c, e, ms[..i]), ms[i])
  {
    assert ms[..i + 1][..i] == ms[..i];
  }

  // ---------------------------------------------------------------- one side, any peer

  /** A connection: what the peer sent and how much of it was read, what was written, how many
      more writes the transport will take, the peer's id, and the identity stored for it. */
  class Encoding {
    const incoming: seq<Message>
    var position: nat
    var written: seq<Message>
    var writesLeft: nat
    var peerNodeId: Option<Uuid>
    var storedIdentity: Option<Identity>

    ghost predicate Valid()
      reads this
    {
      position <= |incoming|
    }

    constructor (incoming: seq<Message>, writesLeft: nat)
      ensures Valid() && this.incoming == incoming && this.writesLeft == writesLeft
      ensures position == 0 && written == [] && peerNodeId == None && storedIdentity == None
    {
      this.incoming, this.writesLeft := incoming, writesLeft;
      position, written, peerNodeId, storedIdentity := 0, [], None, None;
    }

    method ReadMessage() returns (ok: bool, m: Message)
      requires Valid()
      modifies this`position
      ensures Valid() && ok == (old(position) < |incoming|)
      ensures ok ==> m == incoming[old(position)]
      ensures position == old(position) + if ok then 1 else 0
    {
      if position == |incoming| {
        return false, Message(false, None, None, None);
      }
      m := incoming[position];
      position := position + 1;
      ok := true;
    }

    method WriteMessage(m: Message) returns (ok: bool)
      modifies this`written, this`writesLeft
      ensures ok == (old(writesLeft) > 0)
      ensures written == if ok then old(written) + [m] else old(written)
      ensures writesLeft == if ok then old(writesLeft) - 1 else old(writesLeft)
    {
      ok := writesLeft > 0;
      if ok {
        written, writesLeft := written + [m], writesLeft - 1;
      }
    }
  }

  /** A side that has read two messages is done exactly when they are one valid challenge and
      one identity that answers its nonce, in either order. It has then sent its challenge and
      the answer to the other's, and knows the peer by the id it proved. */
  lemma DoneIffAnswered(c: Crypto, l: Local, ms: seq<Message>)
    requires |ms| >= 2
    ensures var e := AfterReading(c, Begun(l), ms[..2]);
            && (Done(e) <==> Answers(c, l.nonce, ms[0], ms[1]))
            && (Done(e) ==>
                  var (challenge, identity) := if ms[0].challenge.Some? then (ms[0], ms[1]) else (ms[1], ms[0]);
                  && e.out == [ChallengeMessage(l), IdentityMessage(c, l, challenge.challenge.value)]
                  && e.peer == ProvedId(c, identity, l.nonce) && e.peer.Some?)
  {
    ReadsOneMore(c, Begun(l), ms, 0);
    ReadsOneMore(c, Begun(l), ms, 1);
    assert ms[..0] == [];
  }

  /** What a challenge must look like, and what answers it: an identity with the challenge's nonce,
      the side's own key and boot id, and a signature over it, addressed to nobody. */
  lemma ChallengeAnswered(c: Crypto, e: Side, m: Message)
    requires m.challenge.Some? && !e.failed
    ensures var e' := Handle(c, e, m);
            && (!e'.failed <==>
                  !e.identitySent && |m.challenge.value| == 16 && !m.hasDestination && m.signature.None?)
            && (!e'.failed ==>
                  && e'.identitySent && |e'.out| == |e.out| + 1 && e'.out[..|e.out|] == e.out
                  && var answer := e'.out[|e.out|];
                     && !answer.hasDestination && answer.challenge.None? && answer.identity.Some?
                     && answer.identity.value.nonce == m.challenge.value
                     && answer.identity.value.publicKey == c.publicKeyOf(e.local.privateKey)
                     && answer.identity.value.bootId == e.local.bootId
                     && answer.signature == Some(c.sign(e.local.privateKey, answer.identity.value)))
            && (e'.failed ==> e'.out == e.out)
  {
  }

  /** What an identity must look like: signed by the key it names, over the nonce this side sent. */
  lemma IdentityTaken(c: Crypto, e: Side, m: Message)
    requires m.challenge.None? && !e.failed
    ensures var e' := Handle(c, e, m);
            && (!e'.failed <==>
                  && !e.identityReceived && m.identity.Some? && m.signature.Some?
                  && m.identity.value.nonce == e.local.nonce
                  && c.nodeIdOf(m.identity.value.publicKey).Some?
                  && c.verify(m.identity.value.publicKey, m.identity.value, m.signature.value))
            && (!e'.failed ==> e'.peer == c.nodeIdOf(m.identity.value.publicKey) && e'.stored == m.identity)
            && e'.out == e.out
  {
  }

  /** The first message of a side: a challenge with its nonce, addressed to nobody. */
  lemma ChallengeSent(l: Local)
    ensures var e := Begun(l);
            && |e.out| == 1 && !e.out[0].hasDestination && e.out[0].challenge == Some(l.nonce)
            && e.out[0].identity.None? && e.out[0].signature.None?
  {
  }

  /** A side that has failed stays failed. */
  lemma FailureLasts(c: Crypto, l: Local, ms: seq<Message>)
    ensures |ms| >= 2 && AfterReading(c, Begun(l), ms[..1]).failed ==> AfterReading(c, Begun(l), ms[..2]).failed
  {
    if |ms| >= 2 { ReadsOneMore(c, Begun(l), ms, 1); }
  }

  predicate SideIs(e: Side, l: Local, encoding: Encoding, identitySent: bool, identityReceived: bool)
    reads encoding
  {
    e == Side(l, true, identitySent, identityReceived, false,
              encoding.peerNodeId, encoding.storedIdentity, encoding.position, encoding.written)
  }

  /** One iteration on message m, just read by a side that was e before: it either becomes what
      Handle says, or gives up because Handle fails or the answer cannot be written. A challenge
      was received exactly when the identity was sent. */
  method HandleIncoming(c: Crypto, l: Local, encoding: Encoding, m: Message, localIdentitySent: bool,
                        peerIdentityReceived: bool, ghost e: Side)
    returns (ok: bool, identitySent: bool, identityReceived: bool)
    requires encoding.position == e.read + 1
    requires SideIs(e.(read := encoding.position), l, encoding, localIdentitySent, peerIdentityReceived)
    modifies encoding`written, encoding`writesLeft, encoding`peerNodeId, encoding`storedIdentity
    ensures ok ==> SideIs(Handle(c, e, m), l, encoding, identitySent, identityReceived)
    ensures !ok ==> Handle(c, e, m).failed || (m.challenge.Some? && old(encoding.writesLeft) == 0)
    ensures !ok ==> Handle(c, e, m).peer == encoding.peerNodeId && Handle(c, e, m).stored == encoding.storedIdentity
    ensures ok ==> if m.challenge.Some?
                   then !localIdentitySent && identitySent && identityReceived == peerIdentityReceived
                   else !peerIdentityReceived && identityReceived && identitySent == localIdentitySent
    ensures ok ==> encoding.writesLeft == old(encoding.writesLeft) - (if m.challenge.Some? then 1 else 0)
  {
    identitySent, identityReceived := localIdentitySent, peerIdentityReceived;
    if m.challenge.Some? {
      if m.hasDestination || m.signature.Some? || localIdentitySent || |m.challenge.value| != NONCE_LENGTH {
        return false, identitySent, identityReceived;
      }
      var answered := encoding.WriteMessage(IdentityMessage(c, l, m.challenge.value));
      if !answered {
        return false, identitySent, identityReceived;
      }
      identitySent := true;
    } else if m.identity.Some? {
      if peerIdentityReceived {
        return false, identitySent, identityReceived;
      }
      var id := ProvedId(c, m, l.nonce);
      if id.None? {
        return false, identitySent, identityReceived;
      }
      encoding.peerNodeId, encoding.storedIdentity := id, m.identity;
      identityReceived := true;
    } else {
      return false, identitySent, identityReceived;
    }
    ok := true;
  }

  /** Opens a connection: it reads at most two messages, and succeeds exactly when both writes
      go through and reading those two completes the exchange; nothing after them is read.
      Whether it succeeds or fails, the peer id it leaves and the identity it stores are those
      that reading as far as it did yields. */
  method PerformInitialIdentityExchange(c: Crypto, l: Local, encoding: Encoding) returns (ok: bool)
    requires encoding.Valid() && encoding.position == 0 && encoding.written == []
    requires encoding.peerNodeId == None && encoding.storedIdentity == None
    modifies encoding
    ensures encoding.Valid() && encoding.position <= 2
    ensures ok <==> && old(encoding.writesLeft) >= 2 && |encoding.incoming| >= 2
                    && Done(AfterReading(c, Begun(l), encoding.incoming[..2]))
    ensures ok ==> SideIs(AfterReading(c, Begun(l), encoding.incoming[..2]), l, encoding, true, true)
    ensures ok ==> encoding.position == 2
    ensures var e := AfterReading(c, Begun(l), encoding.incoming[..encoding.position]);
            encoding.peerNodeId == e.peer && encoding.storedIdentity == e.stored
  {
    var sent := encoding.WriteMessage(ChallengeMessage(l));
    if !sent {
      return false;
    }
    var peerIdentityReceived, localIdentitySent := false, false;
    while !peerIdentityReceived || !localIdentitySent
      invariant encoding.Valid()
      invariant encoding.position == (if peerIdentityReceived then 1 else 0) + (if localIdentitySent then 1 else 0)
      invariant encoding.writesLeft == old(encoding.writesLeft) - 1 - (if localIdentitySent then 1 else 0)
      invariant SideIs(AfterReading(c, Begun(l), encoding.incoming[..encoding.position]), l, encoding,
                       localIdentitySent, peerIdentityReceived)
      decreases |encoding.incoming| - encoding.position
    {
      ghost var e := AfterReading(c, Begun(l), encoding.incoming[..encoding.position]);
      var read, m := encoding.ReadMessage();
      if !read {
        return false;
      }
      ReadsOneMore(c, Begun(l), encoding.incoming, encoding.position - 1);
      FailureLasts(c, l, encoding.incoming);
      var handled;
      handled, localIdentitySent, peerIdentityReceived :=
        HandleIncoming(c, l, encoding, m, localIdentitySent, peerIdentityReceived, e);
      if !handled {
        return false;
      }
    }
    ok := true;
  }

  // ---------------------------------------------------------------- two honest sides

  datatype Pair = Pair(a: Side, b: Side)

  predicate CanRead(e: Side, other: Side) {
    e.started && !e.failed && !Done(e) && e.read < |other.out|
  }

  datatype Step = Start(left: bool) | Read(left: bool) | Traffic(left: bool, message: Message)

  function Acting(y: Pair, left: bool): Side { if left then y.a else y.b }

  function Other(y: Pair, left: bool): Side { if left then y.b else y.a }

  function With(y: Pair, left: bool, e: Side): Pair { if left then y.(a := e) else y.(b := e) }

  /** A side starts by sending its challenge, reads while it is not done, and sends whatever
      it likes afterwards. */
  predicate Enabled(y: Pair, step: Step) {
    var e := Acting(y, step.left);
    match step
    case Start(_) => !e.started
    case Read(left) => CanRead(e, Other(y, left))
    case Traffic(_, _) => Done(e)
  }

  function Next(c: Crypto, y: Pair, step: Step): Pair
    requires Enabled(y, step)
  {
    var e := Acting(y, step.left);
    match step
    case Start(left) => With(y, left, e.(started := true, out := e.out + [ChallengeMessage(e.local)]))
    case Read(left) => With(y, left, Handle(c, e, Other(y, left).out[e.read]))
    case Traffic(left, m) => With(y, left, e.(out := e.out + [m]))
  }

  function Idle(l: Local): Side { Side(l, false, false, false, false, None, None, 0, []) }

  predicate Run(c: Crypto, y: Pair, steps: seq<Step>, y': Pair)
    decreases steps
  {
    if steps == [] then y == y'
    else Enabled(y, steps[0]) && Run(c, Next(c, y, steps[0]), steps[1..], y')
  }

  ghost predicate Honest(c: Crypto, l: Local) {
    c.Works(l.privateKey) && |l.nonce| == NONCE_LENGTH
  }

  function IdOf(c: Crypto, l: Local): Option<Uuid> {
    c.nodeIdOf(c.publicKeyOf(l.privateKey))
  }

  /** How far one side has come determines everything it sent and learned: it answers the
      challenge first, since the peer's identity cannot overtake it. */
  predicate SideInv(c: Crypto, e: Side, other: Local) {
    && !e.failed
    && (e.started <==> e.out != [])
    && (e.started ==> e.out[0] == ChallengeMessage(e.local))
    && (e.identitySent <==> e.read >= 1)
    && (e.identityReceived <==> e.read >= 2)
    && e.read <= 2
    && (!e.started ==> e.read == 0)
    && (e.identitySent <==> |e.out| >= 2)
    && (e.identitySent ==> e.out[1] == IdentityMessage(c, e.local, other.nonce))
    && (!Done(e) ==> |e.out| <= 2)
    && e.peer == (if e.identityReceived then IdOf(c, other) else None)
  }

  ghost predicate Inv(c: Crypto, y: Pair) {
    && Honest(c, y.a.local) && Honest(c, y.b.local)
    && SideInv(c, y.a, y.b.local) && SideInv(c, y.b, y.a.local)
    && y.a.read <= |y.b.out| && y.b.read <= |y.a.out|
  }

  /** Reading the peer's next message keeps a side on track. */
  lemma HandleKeeps(c: Crypto, e: Side, other: Side)
    requires Honest(c, e.local) && Honest(c, other.local)
    requires SideInv(c, e, other.local) && SideInv(c, other, e.local) && CanRead(e, other)
    ensures SideInv(c, Handle(c, e, other.out[e.read]), other.local)
  {
    if e.read == 1 {
      assert other.out[1] == IdentityMessage(c, other.local, e.local.nonce);
      assert ProvedId(c, other.out[1], e.local.nonce) == IdOf(c, other.local);
    }
  }

  lemma NextInv(c: Crypto, y: Pair, step: Step)
    requires Inv(c, y) && Enabled(y, step)
    ensures Inv(c, Next(c, y, step))
    ensures Next(c, y, step).a.local == y.a.local && Next(c, y, step).b.local == y.b.local
  {
    if step.Read? {
      HandleKeeps(c, Acting(y, step.left), Other(y, step.left));
    }
  }

  lemma {:induction false} RunInv(c: Crypto, y: Pair, steps: seq<Step>, y': Pair)
    requires Inv(c, y) && Run(c, y, steps, y')
    ensures Inv(c, y') && y'.a.local == y.a.local && y'.b.local == y.b.local
    decreases steps
  {
    if steps != [] {
      NextInv(c, y, steps[0]);
      RunInv(c, Next(c, y, steps[0]), steps[1..], y');
    }
  }

  /** However two honest sides interleave: neither fails; a side that is done has read exactly
      two messages and knows the other by its node id; what it left unread is the traffic the
      other sent after its own exchange; the exchange takes six steps in all, and until both are
      done one of them can move. */
  lemma ExchangeSucceeds(c: Crypto, a: Local, b: Local, steps: seq<Step>, y: Pair)
    requires Honest(c, a) && Honest(c, b) && Run(c, Pair(Idle(a), Idle(b)), steps, y)
    ensures !y.a.failed && !y.b.failed
    ensures Done(y.a) ==> y.a.read == 2 && y.a.peer == IdOf(c, b) && y.a.peer.Some?
    ensures Done(y.b) ==> y.b.read == 2 && y.b.peer == IdOf(c, a) && y.b.peer.Some?
    ensures Done(y.a) ==> |y.b.out| >= 2 && (!Done(y.b) ==> y.b.out[y.a.read..] == [])
    ensures Done(y.b) ==> |y.a.out| >= 2 && (!Done(y.a) ==> y.a.out[y.b.read..] == [])
    ensures ExchangeSteps(steps) <= 6 && (Done(y.a) && Done(y.b) <==> ExchangeSteps(steps) == 6)
    ensures !(Done(y.a) && Done(y.b)) ==>
              exists left :: Enabled(y, Start(left)) || Enabled(y, Read(left))
  {
    RunInv(c, Pair(Idle(a), Idle(b)), steps, y);
    ExchangeBounded(c, Pair(Idle(a), Idle(b)), steps, y);
    if !(Done(y.a) && Done(y.b)) {
      assert Enabled(y, Start(true)) || Enabled(y, Start(false)) || Enabled(y, Read(true)) || Enabled(y, Read(false));
    }
  }

  /** What the sides sent as traffic, in order. */
  function TrafficOf(steps: seq<Step>, left: bool): seq<Message> {
    if steps == [] then []
    else (if steps[0].Traffic? && steps[0].left == left then [steps[0].message] else []) + TrafficOf(steps[1..], left)
  }

  /** Starts and reads in a run: the exchange itself. */
  function ExchangeSteps(steps: seq<Step>): nat {
    if steps == [] then 0 else (if steps[0].Traffic? then 0 else 1) + ExchangeSteps(steps[1..])
  }

  function StepsLeft(e: Side): int {
    (if e.started then 0 else 1) + (2 - e.read)
  }

  /** Every start or read uses up one of the steps left, whatever else is sent. */
  lemma {:induction false} ExchangeBounded(c: Crypto, y: Pair, steps: seq<Step>, y': Pair)
    requires Inv(c, y) && Run(c, y, steps, y')
    ensures ExchangeSteps(steps) + StepsLeft(y'.a) + StepsLeft(y'.b) == StepsLeft(y.a) + StepsLeft(y.b)
    decreases steps
  {
    if steps != [] {
      NextInv(c, y, steps[0]);
      ExchangeBounded(c, Next(c, y, steps[0]), steps[1..], y');
    }
  }

  /** Messages beyond a side's challenge and identity. */
  function Later(e: Side): seq<Message> {
    if |e.out| <= 2 then [] else e.out[2..]
  }

  lemma NextLater(c: Crypto, y: Pair, step: Step, left: bool)
    requires Inv(c, y) && Enabled(y, step)
    ensures Later(Acting(Next(c, y, step), left))
         == Later(Acting(y, left)) + (if step.Traffic? && step.left == left then [step.message] else [])
  {
  }

  lemma {:induction false} RunLater(c: Crypto, y: Pair, steps: seq<Step>, y': Pair, left: bool)
    requires Inv(c, y) && Run(c, y, steps, y')
    ensures Later(Acting(y', left)) == Later(Acting(y, left)) + TrafficOf(steps, left)
    decreases steps
  {
    if steps == [] {
      assert Later(Acting(y, left)) + [] == Later(Acting(y, left));
    } else {
      var sent := if steps[0].Traffic? && steps[0].left == left then [steps[0].message] else [];
      NextInv(c, y, steps[0]);
      NextLater(c, y, steps[0], left);
      RunLater(c, Next(c, y, steps[0]), steps[1..], y', left);
      Regroup(Later(Acting(y, left)), sent, TrafficOf(steps[1..], left));
    }
  }

  /** When the exchange is over on both sides, exactly the later traffic is left to read, all of
      it and in the order it was sent. */
  lemma TrafficUnread(c: Crypto, a: Local, b: Local, steps: seq<Step>, y: Pair)
    requires Honest(c, a) && Honest(c, b) && Run(c, Pair(Idle(a), Idle(b)), steps, y)
    requires Done(y.a) && Done(y.b)
    ensures y.a.read == y.b.read == 2 && |y.a.out| >= 2 && |y.b.out| >= 2
    ensures y.b.out[y.a.read..] == TrafficOf(steps, false)
    ensures y.a.out[y.b.read..] == TrafficOf(steps, true)
  {
    var start := Pair(Idle(a), Idle(b));
    RunInv(c, start, steps, y);
    RunLater(c, start, steps, y, false);
    RunLater(c, start, steps, y, true);
  }

  // ---------------------------------------------------------------- what a side has learned

  /** A side knows its peer by what an identity proved, and has stored that identity. */
  predicate Learned(c: Crypto, e: Side, m: Message) {
    e.peer.Some? && e.peer == ProvedId(c, m, e.local.nonce) && e.stored == m.identity
  }

  lemma HandleLearns(c: Crypto, e: Side, m: Message)
    requires (e.identityReceived <==> e.peer.Some?) && (e.stored.Some? <==> e.peer.Some?)
    ensures var e' := Handle(c, e, m);
            && e'.local == e.local && (e'.identityReceived <==> e'.peer.Some?) && (e'.stored.Some? <==> e'.peer.Some?)
            && (e'.peer.Some? ==> (e'.peer == e.peer && e'.stored == e.stored) || Learned(c, e', m))
  {
  }

  /** The identity by which a side knows its peer, and which it has stored, was read by it. */
  lemma {:induction false} PeerWasRead(c: Crypto, l: Local, ms: seq<Message>)
    ensures var e := AfterReading(c, Begun(l), ms);
            && e.local == l && (e.identityReceived <==> e.peer.Some?) && (e.stored.Some? <==> e.peer.Some?)
            && (e.peer.Some? ==> exists i | 0 <= i < |ms| :: Learned(c, e, ms[i]))
  {
    if ms != [] {
      var n := |ms| - 1;
      var e := AfterReading(c, Begun(l), ms[..n]);
      PeerWasRead(c, l, ms[..n]);
      HandleLearns(c, e, ms[n]);
      if e.peer.Some? {
        var i :| 0 <= i < n && Learned(c, e, ms[..n][i]);
        assert Learned(c, e, ms[i]);
      }
    }
  }

  /** A side that reads back its own two messages completes too, and then the id it has proved is
      its own. */
  lemma OwnAnswerCompletes(c: Crypto, l: Local)
    requires Honest(c, l)
    ensures var ms := [ChallengeMessage(l), IdentityMessage(c, l, l.nonce)];
            var e := AfterReading(c, Begun(l), ms);
            Done(e) && e.peer == IdOf(c, l) && e.out == ms
  {
    var ms := [ChallengeMessage(l), IdentityMessage(c, l, l.nonce)];
    assert ms[..2] == ms;
    DoneIffAnswered(c, l, ms);
  }
}
