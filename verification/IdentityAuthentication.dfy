/** What a completed identity exchange proves (common/message_queue/mq_authn.cpp), over every run of
    any number of exchanges, whatever else is on the network. */
module IdentityAuthentication {
  import opened Common
  import opened IdentityExchange

  // ---------------------------------------------------------------- runs

  /** A node's answer to a challenge that was routed to it, outside any exchange
      (common/node.cpp). */
  datatype Reply = Reply(owner: Local, nonce: Bytes)

  /** All exchanges begun so far, and all routed challenges answered so far. */
  datatype World = World(sides: seq<Side>, replies: seq<Reply>)

  const NOTHING := World([], [])

  datatype Event =
    | Opens(local: Local)
    | Reads(side: nat, message: Message)
    | Replies(owner: Local, nonce: Bytes)

  function KeyOf(c: Crypto, l: Local): Bytes {
    c.publicKeyOf(l.privateKey)
  }

  /** A side that answered this nonce. */
  predicate Answered(c: Crypto, e: Side, nonce: Bytes) {
    IdentityMessage(c, e.local, nonce) in e.out
  }

  predicate SideAnswered(c: Crypto, w: World, j: nat, key: Bytes, nonce: Bytes)
    requires j < |w.sides|
  {
    KeyOf(c, w.sides[j].local) == key && Answered(c, w.sides[j], nonce)
  }

  predicate ReplyAnswered(c: Crypto, w: World, j: nat, key: Bytes, nonce: Bytes)
    requires j < |w.replies|
  {
    KeyOf(c, w.replies[j].owner) == key && w.replies[j].nonce == nonce
  }

  /** An exchange or a routed reply of the key's owner answered this nonce. */
  predicate AnsweredBy(c: Crypto, w: World, key: Bytes, nonce: Bytes) {
    || (exists j | 0 <= j < |w.sides| :: SideAnswered(c, w, j, key, nonce))
    || (exists j | 0 <= j < |w.replies| :: ReplyAnswered(c, w, j, key, nonce))
  }

  predicate SideSent(e: Side, identity: Identity) {
    exists k | 0 <= k < |e.out| :: e.out[k].identity == Some(identity)
  }

  /** An identity on the network: in what some exchange wrote, or in a routed reply. */
  predicate Sent(c: Crypto, w: World, identity: Identity) {
    || (exists j | 0 <= j < |w.sides| :: SideSent(w.sides[j], identity))
    || (exists j | 0 <= j < |w.replies| ::
          IdentityMessage(c, w.replies[j].owner, w.replies[j].nonce).identity == Some(identity))
  }

  /** Signatures of honest keys cannot be forged: an identity that verifies under one of them has
      been sent. */
  predicate Unforged(c: Crypto, honest: set<Bytes>, w: World, m: Message) {
    m.identity.Some? && m.signature.Some? && m.identity.value.publicKey in honest
    && c.verify(m.identity.value.publicKey, m.identity.value, m.signature.value)
    ==> Sent(c, w, m.identity.value)
  }

  /** The key has the id of an honest key only if it is that key. */
  predicate NoCollision(c: Crypto, honest: set<Bytes>, publicKey: Bytes) {
    forall key | key in honest && c.nodeIdOf(key).Some? && c.nodeIdOf(publicKey) == c.nodeIdOf(key) :: publicKey == key
  }

  /** What can be on the network: no forged signature and no key made to collide with an honest
      one. Everything else about a message is arbitrary. */
  predicate CanTravel(c: Crypto, honest: set<Bytes>, w: World, m: Message) {
    Unforged(c, honest, w, m) && (m.identity.Some? ==> NoCollision(c, honest, m.identity.value.publicKey))
  }

  predicate Possible(c: Crypto, honest: set<Bytes>, w: World, event: Event) {
    match event
    case Opens(_) => true
    case Reads(i, m) => i < |w.sides| && !w.sides[i].failed && !Done(w.sides[i]) && CanTravel(c, honest, w, m)
    case Replies(_, nonce) => |nonce| == NONCE_LENGTH
  }

  function After(c: Crypto, honest: set<Bytes>, w: World, event: Event): World
    requires Possible(c, honest, w, event)
  {
    match event
    case Opens(l) => w.(sides := w.sides + [Begun(l)])
    case Reads(i, m) => w.(sides := w.sides[i := Handle(c, w.sides[i], m)])
    case Replies(owner, nonce) => w.(replies := w.replies + [Reply(owner, nonce)])
  }

  predicate Reaches(c: Crypto, honest: set<Bytes>, w: World, events: seq<Event>, w': World)
    decreases events
  {
    if events == [] then w == w'
    else Possible(c, honest, w, events[0]) && Reaches(c, honest, After(c, honest, w, events[0]), events[1..], w')
  }

  // ---------------------------------------------------------------- invariant

  /** A side has sent its challenge and at most one identity, its own. */
  predicate SendsOwn(c: Crypto, e: Side) {
    && |e.out| == (if e.identitySent then 2 else 1) && e.out[0] == ChallengeMessage(e.local)
    && (e.identitySent ==> e.out[1].identity.Some?
                           && e.out[1] == IdentityMessage(c, e.local, e.out[1].identity.value.nonce))
  }

  /** What a side stored answers its nonce, and if the key is honest, its owner sent it. */
  predicate StoresAnswered(c: Crypto, honest: set<Bytes>, w: World, e: Side) {
    && (e.identityReceived <==> e.peer.Some?) && (e.stored.Some? <==> e.peer.Some?)
    && (e.stored.Some? ==>
          && e.peer == c.nodeIdOf(e.stored.value.publicKey) && NoCollision(c, honest, e.stored.value.publicKey)
          && (e.stored.value.publicKey in honest ==> AnsweredBy(c, w, e.stored.value.publicKey, e.local.nonce)))
  }

  predicate Sound(c: Crypto, honest: set<Bytes>, w: World) {
    forall i | 0 <= i < |w.sides| :: SendsOwn(c, w.sides[i]) && StoresAnswered(c, honest, w, w.sides[i])
  }

  /** Sides keep who they are and what they sent; replies stay. */
  predicate Grows(w: World, w': World) {
    && |w.sides| <= |w'.sides| && w.replies <= w'.replies
    && (forall i | 0 <= i < |w.sides| :: w'.sides[i].local == w.sides[i].local && w.sides[i].out <= w'.sides[i].out)
  }

  lemma AnswersStay(c: Crypto, w: World, w': World, key: Bytes, nonce: Bytes)
    requires Grows(w, w') && AnsweredBy(c, w, key, nonce)
    ensures AnsweredBy(c, w', key, nonce)
  {
    if j :| 0 <= j < |w.sides| && SideAnswered(c, w, j, key, nonce) {
      assert SideAnswered(c, w', j, key, nonce);
    } else {
      var j :| 0 <= j < |w.replies| && ReplyAnswered(c, w, j, key, nonce);
      assert ReplyAnswered(c, w', j, key, nonce);
    }
  }

  /** Whoever sends an identity is the owner of its key and answers its nonce. */
  lemma SentIsAnswered(c: Crypto, honest: set<Bytes>, w: World, identity: Identity)
    requires Sound(c, honest, w) && Sent(c, w, identity)
    ensures AnsweredBy(c, w, identity.publicKey, identity.nonce)
  {
    if j :| 0 <= j < |w.sides| && SideSent(w.sides[j], identity) {
      assert SendsOwn(c, w.sides[j]);
      assert SideAnswered(c, w, j, identity.publicKey, identity.nonce);
    } else {
      var j :| 0 <= j < |w.replies|
               && IdentityMessage(c, w.replies[j].owner, w.replies[j].nonce).identity == Some(identity);
      assert ReplyAnswered(c, w, j, identity.publicKey, identity.nonce);
    }
  }

  lemma AfterGrows(c: Crypto, honest: set<Bytes>, w: World, event: Event)
    requires Possible(c, honest, w, event)
    ensures Grows(w, After(c, honest, w, event))
  {
  }

  lemma ReadingStores(c: Crypto, honest: set<Bytes>, w: World, e: Side, m: Message)
    requires SendsOwn(c, e) && StoresAnswered(c, honest, w, e)
    requires m.identity.Some? ==> NoCollision(c, honest, m.identity.value.publicKey)
    requires ProvedId(c, m, e.local.nonce).Some? && m.identity.value.publicKey in honest ==>
               AnsweredBy(c, w, m.identity.value.publicKey, e.local.nonce)
    ensures SendsOwn(c, Handle(c, e, m)) && StoresAnswered(c, honest, w, Handle(c, e, m))
  {
  }

  lemma ReadSound(c: Crypto, honest: set<Bytes>, w: World, i: nat, m: Message)
    requires Sound(c, honest, w) && i < |w.sides| && CanTravel(c, honest, w, m)
    ensures var e := Handle(c, w.sides[i], m); SendsOwn(c, e) && StoresAnswered(c, honest, w, e)
  {
    if ProvedId(c, m, w.sides[i].local.nonce).Some? && m.identity.value.publicKey in honest {
      SentIsAnswered(c, honest, w, m.identity.value);
    }
    ReadingStores(c, honest, w, w.sides[i], m);
  }

  lemma AfterSound(c: Crypto, honest: set<Bytes>, w: World, event: Event)
    requires Sound(c, honest, w) && Possible(c, honest, w, event)
    ensures Sound(c, honest, After(c, honest, w, event))
  {
    var w' := After(c, honest, w, event);
    AfterGrows(c, honest, w, event);
    if event.Reads? { ReadSound(c, honest, w, event.side, event.message); }
    forall i | 0 <= i < |w'.sides|
      ensures SendsOwn(c, w'.sides[i]) && StoresAnswered(c, honest, w', w'.sides[i])
    {
      var e := w'.sides[i];
      if e.stored.Some? && e.stored.value.publicKey in honest {
        AnswersStay(c, w, w', e.stored.value.publicKey, e.local.nonce);
      }
    }
  }

  lemma {:induction false} RunSound(c: Crypto, honest: set<Bytes>, w: World, events: seq<Event>, w': World)
    requires Sound(c, honest, w) && Reaches(c, honest, w, events, w')
    ensures Sound(c, honest, w')
    decreases events
  {
    if events != [] {
      AfterSound(c, honest, w, events[0]);
      RunSound(c, honest, After(c, honest, w, events[0]), events[1..], w');
    }
  }

  // ---------------------------------------------------------------- results

  /** In every run: a side that knows its peer by the id of an honest key had its own nonce
      answered by that key's owner, in an exchange or in a routed reply; and if the id is not the
      side's own, neither by this side nor by another one of its node. */
  lemma CompletionAuthenticates(c: Crypto, honest: set<Bytes>, events: seq<Event>, w: World, i: nat, key: Bytes)
    requires Reaches(c, honest, NOTHING, events, w) && i < |w.sides| && key in honest
    requires w.sides[i].peer.Some? && w.sides[i].peer == c.nodeIdOf(key)
    ensures w.sides[i].stored.Some? && w.sides[i].stored.value.publicKey == key
    ensures AnsweredBy(c, w, key, w.sides[i].local.nonce)
    ensures w.sides[i].peer != IdOf(c, w.sides[i].local) ==>
              && key != KeyOf(c, w.sides[i].local)
              && forall j | 0 <= j < |w.sides| && SideAnswered(c, w, j, key, w.sides[i].local.nonce) ::
                   j != i && KeyOf(c, w.sides[j].local) != KeyOf(c, w.sides[i].local)
  {
    RunSound(c, honest, NOTHING, events, w);
    assert StoresAnswered(c, honest, w, w.sides[i]);
  }

  /** In every run a side answers at most one nonce, so one exchange never completes two sides that
      sent different challenges. */
  lemma AnswersOneNonce(c: Crypto, honest: set<Bytes>, events: seq<Event>, w: World, j: nat,
                        nonce: Bytes, nonce': Bytes)
    requires Reaches(c, honest, NOTHING, events, w) && j < |w.sides|
    requires Answered(c, w.sides[j], nonce) && Answered(c, w.sides[j], nonce')
    ensures nonce == nonce'
  {
    RunSound(c, honest, NOTHING, events, w);
    AnswersOnce(c, w.sides[j], nonce, nonce');
  }

  lemma AnswersOnce(c: Crypto, e: Side, nonce: Bytes, nonce': Bytes)
    requires SendsOwn(c, e)
    ensures Answered(c, e, nonce) && Answered(c, e, nonce') ==> nonce == nonce'
  {
  }

  // ---------------------------------------------------------------- concrete runs

  ghost predicate Reachable(c: Crypto, honest: set<Bytes>, w: World) {
    exists events :: Reaches(c, honest, NOTHING, events, w)
  }

  lemma {:induction false} ReachesMore(c: Crypto, honest: set<Bytes>, w: World, events: seq<Event>, w': World,
                                       event: Event)
    requires Reaches(c, honest, w, events, w') && Possible(c, honest, w', event)
    ensures Reaches(c, honest, w, events + [event], After(c, honest, w', event))
    decreases events
  {
    if events == [] {
      assert events + [event] == [event] && [event][1..] == [];
    } else {
      ReachesMore(c, honest, After(c, honest, w, events[0]), events[1..], w', event);
      assert (events + [event])[1..] == events[1..] + [event];
    }
  }

  lemma Goes(c: Crypto, honest: set<Bytes>, w: World, event: Event)
    requires Reachable(c, honest, w) && Possible(c, honest, w, event)
    ensures Reachable(c, honest, After(c, honest, w, event))
  {
    var events :| Reaches(c, honest, NOTHING, events, w);
    ReachesMore(c, honest, NOTHING, events, w, event);
  }

  lemma BothOpen(c: Crypto, honest: set<Bytes>, a: Local, b: Local)
    ensures Reachable(c, honest, World([Begun(a), Begun(b)], []))
  {
    assert Reaches(c, honest, NOTHING, [], NOTHING);
    Goes(c, honest, NOTHING, Opens(a));
    assert NOTHING.sides + [Begun(a)] == [Begun(a)];
    Goes(c, honest, World([Begun(a)], []), Opens(b));
    assert [Begun(a)] + [Begun(b)] == [Begun(a), Begun(b)];
  }

  lemma FirstReads(c: Crypto, honest: set<Bytes>, e: Side, f: Side, m: Message)
    requires Reachable(c, honest, World([e, f], [])) && !e.failed && !Done(e)
    requires CanTravel(c, honest, World([e, f], []), m)
    ensures Reachable(c, honest, World([Handle(c, e, m), f], []))
  {
    Goes(c, honest, World([e, f], []), Reads(0, m));
    assert [e, f][0 := Handle(c, e, m)] == [Handle(c, e, m), f];
  }

  lemma SecondReads(c: Crypto, honest: set<Bytes>, e: Side, f: Side, m: Message)
    requires Reachable(c, honest, World([e, f], [])) && !f.failed && !Done(f)
    requires CanTravel(c, honest, World([e, f], []), m)
    ensures Reachable(c, honest, World([e, Handle(c, f, m)], []))
  {
    Goes(c, honest, World([e, f], []), Reads(1, m));
    assert [e, f][1 := Handle(c, f, m)] == [e, Handle(c, f, m)];
  }

  /** a after sending its challenge, after answering a nonce, and when it knows its peer by the
      identity b sent. */
  function AnsweredSide(c: Crypto, a: Local, nonce: Bytes): Side {
    Begun(a).(identitySent := true, read := 1, out := [ChallengeMessage(a), IdentityMessage(c, a, nonce)])
  }

  function DoneSide(c: Crypto, a: Local, nonce: Bytes, b: Local): Side {
    AnsweredSide(c, a, nonce).(identityReceived := true, read := 2, peer := IdOf(c, b),
                               stored := IdentityMessage(c, b, a.nonce).identity)
  }

  lemma ReadsChallenge(c: Crypto, a: Local, b: Local)
    requires |b.nonce| == NONCE_LENGTH
    ensures Handle(c, Begun(a), ChallengeMessage(b)) == AnsweredSide(c, a, b.nonce)
  {
  }

  lemma ReadsIdentity(c: Crypto, a: Local, nonce: Bytes, b: Local)
    requires Honest(c, b)
    ensures Handle(c, AnsweredSide(c, a, nonce), IdentityMessage(c, b, a.nonce)) == DoneSide(c, a, nonce, b)
    ensures Done(DoneSide(c, a, nonce, b))
  {
    assert ProvedId(c, IdentityMessage(c, b, a.nonce), a.nonce) == IdOf(c, b);
  }

  lemma RepeatsSent(c: Crypto, honest: set<Bytes>, w: World, j: nat, a: Local, nonce: Bytes)
    requires j < |w.sides| && IdentityMessage(c, a, nonce) in w.sides[j].out && NoCollision(c, honest, KeyOf(c, a))
    ensures CanTravel(c, honest, w, IdentityMessage(c, a, nonce))
  {
    assert SideSent(w.sides[j], IdentityMessage(c, a, nonce).identity.value);
  }

  lemma BothAnswer(c: Crypto, honest: set<Bytes>, a: Local, b: Local)
    requires |a.nonce| == |b.nonce| == NONCE_LENGTH
    ensures Reachable(c, honest, World([Begun(a), AnsweredSide(c, b, a.nonce)], []))
    ensures Reachable(c, honest, World([AnsweredSide(c, a, b.nonce), AnsweredSide(c, b, a.nonce)], []))
  {
    BothOpen(c, honest, a, b);
    ReadsChallenge(c, b, a);
    SecondReads(c, honest, Begun(a), Begun(b), ChallengeMessage(a));
    ReadsChallenge(c, a, b);
    FirstReads(c, honest, Begun(a), AnsweredSide(c, b, a.nonce), ChallengeMessage(b));
  }

  /** Two honest sides that exchange their messages come to know each other by the id of an honest
      key, whatever the cryptography. */
  lemma ExchangeReached(c: Crypto, a: Local, b: Local)
    requires Honest(c, a) && Honest(c, b) && (IdOf(c, a) == IdOf(c, b) ==> KeyOf(c, a) == KeyOf(c, b))
    ensures var honest := {KeyOf(c, a), KeyOf(c, b)};
            Reachable(c, honest, World([DoneSide(c, a, b.nonce, b), DoneSide(c, b, a.nonce, a)], []))
    ensures Done(DoneSide(c, a, b.nonce, b)) && Done(DoneSide(c, b, a.nonce, a))
  {
    var honest := {KeyOf(c, a), KeyOf(c, b)};
    var a1, b1 := AnsweredSide(c, a, b.nonce), AnsweredSide(c, b, a.nonce);
    BothAnswer(c, honest, a, b);
    RepeatsSent(c, honest, World([a1, b1], []), 1, b, a.nonce);
    ReadsIdentity(c, a, b.nonce, b);
    FirstReads(c, honest, a1, b1, IdentityMessage(c, b, a.nonce));
    var a2 := DoneSide(c, a, b.nonce, b);
    RepeatsSent(c, honest, World([a2, b1], []), 0, a, b.nonce);
    ReadsIdentity(c, b, a.nonce, a);
    SecondReads(c, honest, a2, b1, IdentityMessage(c, a, b.nonce));
  }

  /** The condition on the id is needed: a side that reads back its own two messages completes with
      its own id, and no other exchange is involved. */
  lemma OwnAnswerReached(c: Crypto, a: Local)
    requires Honest(c, a)
    ensures Reachable(c, {KeyOf(c, a)}, World([DoneSide(c, a, a.nonce, a)], []))
    ensures Done(DoneSide(c, a, a.nonce, a)) && DoneSide(c, a, a.nonce, a).peer == IdOf(c, a)
  {
    var honest := {KeyOf(c, a)};
    var a0, a1, a2 := Begun(a), AnsweredSide(c, a, a.nonce), DoneSide(c, a, a.nonce, a);
    assert Reaches(c, honest, NOTHING, [], NOTHING);
    Goes(c, honest, NOTHING, Opens(a));
    assert NOTHING.sides + [a0] == [a0];
    ReadsChallenge(c, a, a);
    Goes(c, honest, World([a0], []), Reads(0, ChallengeMessage(a)));
    assert [a0][0 := a1] == [a1];
    RepeatsSent(c, honest, World([a1], []), 0, a, a.nonce);
    ReadsIdentity(c, a, a.nonce, a);
    Goes(c, honest, World([a1], []), Reads(0, IdentityMessage(c, a, a.nonce)));
    assert [a1][0 := a2] == [a2];
  }

  /** An identity names neither its reader nor the exchange it is meant for. So completion says who
      answered, but not whom that side faces: here a knows b and b knows x. */
  lemma PeerMayFaceAnother(c: Crypto, a: Local, b: Local, x: Local)
    requires Honest(c, a) && Honest(c, b) && Honest(c, x)
    requires IdOf(c, a) != IdOf(c, b) && IdOf(c, x) != IdOf(c, a) && IdOf(c, x) != IdOf(c, b)
    ensures var honest := {KeyOf(c, a), KeyOf(c, b)};
            Reachable(c, honest, World([DoneSide(c, a, b.nonce, b), DoneSide(c, b, a.nonce, x)], []))
    ensures DoneSide(c, a, b.nonce, b).peer == IdOf(c, b) && DoneSide(c, b, a.nonce, x).peer == IdOf(c, x)
  {
    var honest := {KeyOf(c, a), KeyOf(c, b)};
    var a1, b1, b2 := AnsweredSide(c, a, b.nonce), AnsweredSide(c, b, a.nonce), DoneSide(c, b, a.nonce, x);
    BothAnswer(c, honest, a, b);
    ReadsIdentity(c, b, a.nonce, x);
    SecondReads(c, honest, a1, b1, IdentityMessage(c, x, b.nonce));
    RepeatsSent(c, honest, World([a1, b2], []), 1, b, a.nonce);
    ReadsIdentity(c, a, b.nonce, b);
    FirstReads(c, honest, a1, b2, IdentityMessage(c, b, a.nonce));
  }

  /** Keys are their own public halves, ids and signatures. */
  const TOY := Crypto(k => k, k => if |k| == 16 then Some(k) else None, (k, _) => k,
                      (k, _, signature) => signature == k)

  /** So the premises of CompletionAuthenticates can be met, by keys that verify all they sign. */
  lemma PremisesMet(a: Local, b: Local)
    requires |a.privateKey| == |b.privateKey| == |a.nonce| == |b.nonce| == 16
    ensures TOY.Works(a.privateKey) && TOY.Works(b.privateKey)
    ensures var honest := {KeyOf(TOY, a), KeyOf(TOY, b)};
            var e := DoneSide(TOY, a, b.nonce, b);
            && Reachable(TOY, honest, World([e, DoneSide(TOY, b, a.nonce, a)], []))
            && e.peer.Some? && e.peer == TOY.nodeIdOf(KeyOf(TOY, b))
  {
    ExchangeReached(TOY, a, b);
  }
}
