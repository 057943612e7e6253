/** Concrete runs of the key-negotiation protocol between two nodes: a complete handshake, a
    responder that is left alone with a key, and a key that lives longer at one end. */
module AesScenarios {
  import opened Common
  import opened AesNegotiation
  import opened AesProtocol
  import opened AesTheorems
  import opened AesResponder

  const ALICE: Uuid := seq(16, _ => 0)
  const BOB: Uuid := seq(16, _ => 1)
  const KEY: Uuid := seq(16, _ => 2)
  const ONE_KEY := Limits(1, 1, 10, 1, 100, 10)
  const NO_KEYS := ONE_KEY.(maxActiveKeys := 0)

  /** Every ephemeral key decodes and agrees on the empty secret. */
  const TOY := Crypto(_ => [], _ => true, (_, _) => Some([]), b => b)

  const EMPTY := NodeState(ONE_KEY, map[], map[])
  const START := World(map[ALICE := EMPTY, BOB := EMPTY], multiset{}, map[])

  const REQUEST := Envelope(Some(ALICE), BOB, Request(Some(KEY), Some([]), 10, P256_SHA256_AES256))
  const REPLY := Envelope(Some(BOB), ALICE, Reply(Some(KEY), Some([]), 10, P256_SHA256_AES256))
  const REFUSAL := ErrorTo(ALICE, BOB, Some(KEY), KeyLimitReached)

  const ASK := StepBegin(ALICE, BOB, 0, 0, KEY, 0)
  const GRANT := StepDeliver(REQUEST, 0, 0)
  const ACCEPT := StepDeliver(REPLY, 0, 0)

  const ASKED := World(
    START.nodes[ALICE := EMPTY.(pending := map[BOB := Pending(KEY, 0, P256_SHA256_AES256, 10, 10)])],
    multiset{REQUEST}, map[KEY := Session(ALICE, BOB, 0, 10, None, None)])

  const BOBS_KEY := Active(KEY, KeyMaterial(TOY, [], KEY, BOB, ALICE), P256_SHA256_AES256, 10)

  const GRANTED := World(
    ASKED.nodes[BOB := EMPTY.(active := map[ALICE := BOBS_KEY])],
    multiset{REPLY}, map[KEY := Session(ALICE, BOB, 0, 10, Some(Answer(0, 10, 0)), None)])

  const ALICES_KEY := Active(KEY, KeyMaterial(TOY, [], KEY, ALICE, BOB), P256_SHA256_AES256, 10)

  const CONFIRMED := World(
    GRANTED.nodes[ALICE := EMPTY.(active := map[BOB := ALICES_KEY])],
    multiset{}, map[KEY := Session(ALICE, BOB, 0, 10, Some(Answer(0, 10, 0)), Some(Confirmation(10, 0)))])

  lemma Different()
    ensures ALICE != BOB
  {
    assert ALICE[0] != BOB[0];
  }

  /** One more step of a run. */
  lemma RunStep(w: World, steps: seq<Step>, step: Step, all: seq<Step>, before: World, after: World)
    requires all == steps + [step] && Run(TOY, w, steps) == before && Next(TOY, before, step) == after
    ensures Run(TOY, w, all) == after
  {
    assert all[..|steps|] == steps;
  }

  lemma Asks()
    ensures Next(TOY, START, ASK) == ASKED
  {
    Different();
  }

  lemma Grants()
    ensures Next(TOY, ASKED, GRANT) == GRANTED
  {
    Different();
  }

  lemma RunsToGrant()
    ensures Run(TOY, START, [ASK, GRANT]) == GRANTED
  {
    Asks();
    RunStep(START, [], ASK, [ASK], START, ASKED);
    Grants();
    RunStep(START, [ASK], GRANT, [ASK, GRANT], ASKED, GRANTED);
  }

  lemma Accepts()
    ensures Next(TOY, GRANTED, ACCEPT) == CONFIRMED
  {
    Different();
    assert ReplyRefusal(TOY, GRANTED.nodes[ALICE], BOB, REPLY.payload).None?;
  }

  /** Both ends of a finished handshake hold the key, so the premises of KeyAgreement are met. */
  lemma HandshakeCompletes()
    ensures TOY.Symmetric() && Init(START)
    ensures var r := Run(TOY, START, [ASK, GRANT, ACCEPT]);
            && ALICE in r.nodes && BOB in r.nodes && BOB in r.nodes[ALICE].active && ALICE in r.nodes[BOB].active
            && r.nodes[ALICE].active[BOB].keyId == r.nodes[BOB].active[ALICE].keyId
  {
    Different();
    RunsToGrant();
    Accepts();
    RunStep(START, [ASK, GRANT], ACCEPT, [ASK, GRANT, ACCEPT], GRANTED, CONFIRMED);
  }

  const CUT := StepSetLimits(ALICE, NO_KEYS)
  const CLEAR := StepDeliver(REFUSAL, 0, 0)

  const LIMITED := GRANTED.(nodes := GRANTED.nodes[ALICE := GRANTED.nodes[ALICE].(limits := NO_KEYS)])
  const REFUSED := LIMITED.(nodes := LIMITED.nodes[ALICE := EMPTY.(limits := NO_KEYS)], network := multiset{REFUSAL})
  const ORPHANED := REFUSED.(network := multiset{})

  lemma CutsLimits()
    ensures Next(TOY, GRANTED, CUT) == LIMITED
  {
    Different();
  }

  lemma RefusesReply()
    ensures Next(TOY, LIMITED, ACCEPT) == REFUSED
  {
    Different();
  }

  lemma RunsToCut()
    ensures Run(TOY, START, [ASK, GRANT, CUT]) == LIMITED
  {
    RunsToGrant();
    CutsLimits();
    RunStep(START, [ASK, GRANT], CUT, [ASK, GRANT, CUT], GRANTED, LIMITED);
  }

  lemma RunsToRefusal()
    ensures Run(TOY, START, [ASK, GRANT, CUT, ACCEPT]) == REFUSED
  {
    RunsToCut();
    RefusesReply();
    RunStep(START, [ASK, GRANT, CUT], ACCEPT, [ASK, GRANT, CUT, ACCEPT], LIMITED, REFUSED);
  }

  lemma RunsToOrphan()
    ensures Run(TOY, START, [ASK, GRANT, CUT, ACCEPT, CLEAR]) == ORPHANED
  {
    RunsToRefusal();
    ClearsNothing();
    RunStep(START, [ASK, GRANT, CUT, ACCEPT], CLEAR, [ASK, GRANT, CUT, ACCEPT, CLEAR], REFUSED, ORPHANED);
  }

  lemma ClearsNothing()
    ensures Next(TOY, REFUSED, CLEAR) == ORPHANED
  {
    Different();
  }

  lemma NothingLost(s1: Step, s2: Step, s3: Step, s4: Step, s5: Step)
    requires !s1.StepLose? && !s2.StepLose? && !s3.StepLose? && !s4.StepLose? && !s5.StepLose?
    ensures Lossless([s1, s2, s3, s4, s5])
  {
  }

  lemma BobHoldsOn()
    ensures Holds(ORPHANED, BOB, ALICE, KEY)
    ensures !Holds(ORPHANED, ALICE, BOB, KEY) && !Awaits(ORPHANED, ALICE, BOB, KEY)
  {
    Different();
  }

  /** The last alternative of NoOrphanedResponder is needed: nothing is lost, nothing is in
      flight, the responder holds the key and the initiator neither holds nor awaits it. */
  lemma OrphanedResponder()
    ensures var steps := [ASK, GRANT, CUT, ACCEPT, CLEAR];
            && Init(START) && Lossless(steps)
            && Run(TOY, START, steps) == ORPHANED && ORPHANED.network == multiset{}
            && Holds(ORPHANED, BOB, ALICE, KEY)
            && !Holds(ORPHANED, ALICE, BOB, KEY) && !Awaits(ORPHANED, ALICE, BOB, KEY)
  {
    BobHoldsOn();
    NothingLost(ASK, GRANT, CUT, ACCEPT, CLEAR);
    RunsToOrphan();
  }

  // ---------------------------------------------------------------- lifetime ranges that do not meet

  const BRIEF := EMPTY.(limits := ONE_KEY.(maxLifetimeMs := 10))
  const LASTING := EMPTY.(limits := ONE_KEY.(minLifetimeMs := 50, defaultLifetimeMs := 50))
  const APART := World(map[ALICE := BRIEF, BOB := LASTING], multiset{}, map[])

  const LONG_REPLY := Envelope(Some(BOB), ALICE, Reply(Some(KEY), Some([]), 50, P256_SHA256_AES256))
  const ACCEPT_LONG := StepDeliver(LONG_REPLY, 0, 0)

  const APART_ASKED := World(
    APART.nodes[ALICE := BRIEF.(pending := map[BOB := Pending(KEY, 0, P256_SHA256_AES256, 10, 10)])],
    multiset{REQUEST}, map[KEY := Session(ALICE, BOB, 0, 10, None, None)])

  const APART_GRANTED := World(
    APART_ASKED.nodes[BOB := LASTING.(active := map[ALICE := BOBS_KEY.(expiresAt := 50)])],
    multiset{LONG_REPLY}, map[KEY := Session(ALICE, BOB, 0, 10, Some(Answer(0, 50, 0)), None)])

  const APART_CONFIRMED := World(
    APART_GRANTED.nodes[ALICE := BRIEF.(active := map[BOB := ALICES_KEY])],
    multiset{}, map[KEY := Session(ALICE, BOB, 0, 10, Some(Answer(0, 50, 0)), Some(Confirmation(10, 0)))])

  lemma AsksApart()
    ensures Next(TOY, APART, ASK) == APART_ASKED
  {
    Different();
  }

  lemma GrantsLong()
    ensures Next(TOY, APART_ASKED, GRANT) == APART_GRANTED
  {
    Different();
  }

  lemma AcceptsLong()
    ensures Next(TOY, APART_GRANTED, ACCEPT_LONG) == APART_CONFIRMED
  {
    Different();
    assert ReplyRefusal(TOY, APART_GRANTED.nodes[ALICE], BOB, LONG_REPLY.payload).None?;
  }

  lemma RunsToLongGrant()
    ensures Run(TOY, APART, [ASK, GRANT]) == APART_GRANTED
  {
    AsksApart();
    RunStep(APART, [], ASK, [ASK], APART, APART_ASKED);
    GrantsLong();
    RunStep(APART, [ASK], GRANT, [ASK, GRANT], APART_ASKED, APART_GRANTED);
  }

  lemma RunsApart()
    ensures Run(TOY, APART, [ASK, GRANT, ACCEPT_LONG]) == APART_CONFIRMED
  {
    RunsToLongGrant();
    AcceptsLong();
    RunStep(APART, [ASK, GRANT], ACCEPT_LONG, [ASK, GRANT, ACCEPT_LONG], APART_GRANTED, APART_CONFIRMED);
  }

  lemma LimitsLeftAlone(s1: Step, s2: Step, s3: Step)
    requires !s1.StepSetLimits? && !s2.StepSetLimits? && !s3.StepSetLimits?
    ensures LimitsFixed([s1, s2, s3])
  {
  }

  lemma KeysApart()
    ensures APART_CONFIRMED.nodes.Keys == {ALICE, BOB}
    ensures var i, j := APART_CONFIRMED.nodes[ALICE], APART_CONFIRMED.nodes[BOB];
            && HoldsAt(i, BOB, KEY) && HoldsAt(j, ALICE, KEY)
            && i.active[BOB].expiresAt == 10 && j.active[ALICE].expiresAt == 50
            && !RangesOverlap(i.limits, j.limits)
  {
    Different();
  }

  /** The condition of LifetimeAgreement is needed: both ends install the key at time zero, and it
      lives for 10 ms at one end and for 50 ms at the other. */
  lemma LifetimesDiffer()
    ensures var r := Run(TOY, APART, [ASK, GRANT, ACCEPT_LONG]);
            && Init(APART) && LimitsFixed([ASK, GRANT, ACCEPT_LONG])
            && Holds(r, ALICE, BOB, KEY) && Holds(r, BOB, ALICE, KEY)
            && !RangesOverlap(r.nodes[ALICE].limits, r.nodes[BOB].limits)
            && r.nodes[ALICE].active[BOB].expiresAt == 10 && r.nodes[BOB].active[ALICE].expiresAt == 50
  {
    RunsApart();
    LimitsLeftAlone(ASK, GRANT, ACCEPT_LONG);
    KeysApart();
    InitApart();
  }

  lemma InitApart()
    ensures Init(APART)
  {
  }
}
