/** Log subscriptions and publishing (common/logging/logging.cpp). A filter is a message
    predicate of the same shape as those in requirement trees; times are milliseconds. */
module LogSubscriptions {
  import opened Common
  import opened ErdTree

  datatype Subscription = Subscription(subscriber: Uuid, typeUrl: string, filter: MesTree, expiresAt: int)

  type Subscriptions = map<Uuid, Subscription>

  /** A record's payload: its type, and what could be unpacked of it. */
  datatype Payload = Payload(typeUrl: string, unpacked: Option<MessageView>)

  datatype Stats = Stats(matched: nat, delivered: nat, expired: nat, removedOnFailure: nat)

  function Live(subs: Subscriptions, now: int): Subscriptions {
    map id | id in subs && subs[id].expiresAt > now :: subs[id]
  }

  function Excluding(subs: Subscriptions, nodes: set<Uuid>): Subscriptions {
    map id | id in subs && subs[id].subscriber !in nodes :: subs[id]
  }

  predicate Matches(s: Subscription, typeUrl: string, m: MessageView) {
    s.typeUrl == typeUrl && EvalMessage(s.filter, m)
  }

  // ---------------------------------------------------------------- one pass of deliveries

  /** Deliveries attempted so far, in order, and the subscribers that failed one. */
  datatype Deliveries = Deliveries(attempts: seq<Uuid>, failed: set<Uuid>, delivered: nat)

  /** One candidate: skipped if its subscriber failed already or it does not match. The k-th
      delivery ever attempted is answered by answers(k). */
  function Offer(subs: Subscriptions, typeUrl: string, m: MessageView, answers: nat -> bool, d: Deliveries,
                 id: Uuid): Deliveries
    requires id in subs
  {
    if subs[id].subscriber in d.failed || !Matches(subs[id], typeUrl, m) then d
    else if answers(|d.attempts|) then Deliveries(d.attempts + [id], d.failed, d.delivered + 1)
    else Deliveries(d.attempts + [id], d.failed + {subs[id].subscriber}, d.delivered)
  }

  function OfferAll(subs: Subscriptions, typeUrl: string, m: MessageView, answers: nat -> bool,
                    ids: seq<Uuid>): Deliveries
    requires forall id | id in ids :: id in subs
  {
    if ids == [] then Deliveries([], {}, 0)
    else Offer(subs, typeUrl, m, answers, OfferAll(subs, typeUrl, m, answers, ids[..|ids| - 1]), ids[|ids| - 1])
  }

  /** Every attempt is for a live matching subscription, and no subscription is tried twice. */
  lemma {:induction false} AttemptsMatch(subs: Subscriptions, typeUrl: string, m: MessageView, answers: nat -> bool,
                                         ids: seq<Uuid>)
    requires (forall id | id in ids :: id in subs) && Distinct(ids)
    ensures var d := OfferAll(subs, typeUrl, m, answers, ids);
            && (forall id | id in d.attempts :: id in ids && Matches(subs[id], typeUrl, m))
            && Distinct(d.attempts)
  {
    if ids != [] {
      var before := ids[..|ids| - 1];
      DistinctPrefix(ids, |ids| - 1);
      AttemptsMatch(subs, typeUrl, m, answers, before);
      var d := OfferAll(subs, typeUrl, m, answers, before);
      if ids[|ids| - 1] !in d.attempts { DistinctSnoc(d.attempts, ids[|ids| - 1]); }
    }
  }

  /** Every matching subscription of a subscriber that did not fail was tried. */
  lemma {:induction false} MatchesAttempted(subs: Subscriptions, typeUrl: string, m: MessageView,
                                            answers: nat -> bool, ids: seq<Uuid>, id: Uuid)
    requires (forall id | id in ids :: id in subs) && id in ids && Matches(subs[id], typeUrl, m)
    ensures var d := OfferAll(subs, typeUrl, m, answers, ids);
            subs[id].subscriber in d.failed || id in d.attempts
  {
    var before := ids[..|ids| - 1];
    if id in before {
      MatchesAttempted(subs, typeUrl, m, answers, before, id);
    } else {
      assert ids == before + [ids[|ids| - 1]];
    }
  }

  /** The failed subscribers are those of the refused attempts, ... */
  lemma {:induction false} FailedAreRefused(subs: Subscriptions, typeUrl: string, m: MessageView,
                                            answers: nat -> bool, ids: seq<Uuid>, node: Uuid)
    requires forall id | id in ids :: id in subs
    ensures var d := OfferAll(subs, typeUrl, m, answers, ids);
            node in d.failed <==>
            exists k :: 0 <= k < |d.attempts| && !answers(k)
                        && d.attempts[k] in subs && subs[d.attempts[k]].subscriber == node
  {
    if ids != [] {
      var before := OfferAll(subs, typeUrl, m, answers, ids[..|ids| - 1]);
      var d := OfferAll(subs, typeUrl, m, answers, ids);
      FailedAreRefused(subs, typeUrl, m, answers, ids[..|ids| - 1], node);
      assert forall k | 0 <= k < |before.attempts| :: d.attempts[k] == before.attempts[k];
      if d.attempts != before.attempts {
        assert d.attempts[|before.attempts|] == ids[|ids| - 1];
      }
    }
  }

  /** ... each of them refused exactly once, and every attempt was delivered or refused. */
  lemma {:induction false} AttemptsCounted(subs: Subscriptions, typeUrl: string, m: MessageView, answers: nat -> bool,
                                           ids: seq<Uuid>)
    requires forall id | id in ids :: id in subs
    ensures var d := OfferAll(subs, typeUrl, m, answers, ids);
            |d.attempts| == d.delivered + |d.failed|
  {
    if ids != [] { AttemptsCounted(subs, typeUrl, m, answers, ids[..|ids| - 1]); }
  }

  /** A subscriber that refused a delivery is not tried again in the same pass. */
  lemma {:induction false} NotTriedAgain(subs: Subscriptions, typeUrl: string, m: MessageView, answers: nat -> bool,
                                         ids: seq<Uuid>, i: nat, j: nat)
    requires forall id | id in ids :: id in subs
    requires var d := OfferAll(subs, typeUrl, m, answers, ids); i < j < |d.attempts| && !answers(i)
    ensures var d := OfferAll(subs, typeUrl, m, answers, ids);
            && d.attempts[i] in subs && d.attempts[j] in subs
            && subs[d.attempts[i]].subscriber != subs[d.attempts[j]].subscriber
  {
    var before := ids[..|ids| - 1];
    var d, d' := OfferAll(subs, typeUrl, m, answers, before), OfferAll(subs, typeUrl, m, answers, ids);
    AttemptsKnown(subs, typeUrl, m, answers, ids);
    assert d'.attempts[i] in d'.attempts && d'.attempts[j] in d'.attempts;
    if j < |d.attempts| {
      NotTriedAgain(subs, typeUrl, m, answers, before, i, j);
    } else {
      FailedAreRefused(subs, typeUrl, m, answers, before, subs[d'.attempts[i]].subscriber);
      assert d.attempts[i] == d'.attempts[i];
    }
  }

  lemma {:induction false} AttemptsKnown(subs: Subscriptions, typeUrl: string, m: MessageView, answers: nat -> bool,
                                         ids: seq<Uuid>)
    requires forall id | id in ids :: id in subs
    ensures forall id | id in OfferAll(subs, typeUrl, m, answers, ids).attempts :: id in subs
  {
    if ids != [] { AttemptsKnown(subs, typeUrl, m, answers, ids[..|ids| - 1]); }
  }

  /** Who gets a record: nobody whose subscription has run out by then, is for another type, or has a
      filter that does not hold; and everybody else, unless the subscriber refused one before. */
  lemma AttemptedIff(subs: Subscriptions, now: int, typeUrl: string, m: MessageView, answers: nat -> bool,
                     ids: seq<Uuid>, id: Uuid)
    requires Distinct(ids) && (forall id :: id in ids <==> id in Live(subs, now))
    ensures var d := OfferAll(Live(subs, now), typeUrl, m, answers, ids);
            && (id in d.attempts ==>
                  && id in subs && subs[id].expiresAt > now
                  && subs[id].typeUrl == typeUrl && EvalMessage(subs[id].filter, m))
            && (id in subs && subs[id].expiresAt > now && subs[id].typeUrl == typeUrl && EvalMessage(subs[id].filter, m)
                ==> id in d.attempts || subs[id].subscriber in d.failed)
  {
    AttemptsMatch(Live(subs, now), typeUrl, m, answers, ids);
    if id in Live(subs, now) && Matches(subs[id], typeUrl, m) {
      MatchesAttempted(Live(subs, now), typeUrl, m, answers, ids, id);
    }
  }

  /** What is left after a record: what has not run out and whose subscriber refused nothing. */
  lemma LeftIff(subs: Subscriptions, now: int, failed: set<Uuid>, id: Uuid)
    ensures id in Excluding(Live(subs, now), failed)
       <==> id in subs && subs[id].expiresAt > now && subs[id].subscriber !in failed
    ensures id in Excluding(Live(subs, now), failed) ==> Excluding(Live(subs, now), failed)[id] == subs[id]
  {
  }

  // ---------------------------------------------------------------- maps and their sizes

  lemma Erased(subs: Subscriptions, id: Uuid)
    requires id in subs
    ensures |subs - {id}| == |subs| - 1
  {
    assert (subs - {id}).Keys == subs.Keys - {id};
  }

  lemma ExcludingMore(subs: Subscriptions, nodes: set<Uuid>, node: Uuid)
    ensures Excluding(Excluding(subs, nodes), {node}) == Excluding(subs, nodes + {node})
  {
  }

  /** A map as it is while some of its ids have been visited: those not kept are gone. */
  predicate Swept(start: Subscriptions, kept: Subscriptions, done: seq<Uuid>, subs: Subscriptions) {
    && (forall id | id in subs :: id in start && subs[id] == start[id] && (id in done ==> id in kept))
    && (forall id | id in start && (id !in done || id in kept) :: id in subs)
  }

  lemma SweptAll(start: Subscriptions, kept: Subscriptions, done: seq<Uuid>, subs: Subscriptions)
    requires Swept(start, kept, done, subs) && (forall id | id in start :: id in done)
    requires forall id | id in kept :: id in start && kept[id] == start[id]
    ensures subs == kept
  {
  }

  lemma SweptOne(start: Subscriptions, kept: Subscriptions, done: seq<Uuid>, subs: Subscriptions, id: Uuid)
    requires Swept(start, kept, done, subs) && id in start
    ensures id in kept ==> Swept(start, kept, done + [id], subs)
    ensures id !in kept ==> Swept(start, kept, done + [id], subs - {id})
  {
  }

  /** The keys of a map in some order. */
  method KeysInOrder(subs: Subscriptions) returns (ids: seq<Uuid>)
    ensures Distinct(ids) && forall id :: id in ids <==> id in subs
  {
    var rest := subs.Keys;
    ids := [];
    while rest != {}
      invariant Distinct(ids)
      invariant forall id :: id in ids <==> id in subs && id !in rest
      invariant forall id | id in rest :: id in subs
      decreases |rest|
    {
      var id :| id in rest;
      DistinctSnoc(ids, id);
      ids, rest := ids + [id], rest - {id};
    }
  }

  // ---------------------------------------------------------------- the manager

  datatype SubscribeStatus = Accepted(id: Uuid, expiresAt: int) | InvalidSubscribe

  datatype UnsubscribeStatus = Removed | NotFound | InvalidUnsubscribe

  class SubscriptionManager {
    var subscriptions: Subscriptions

    constructor ()
      ensures subscriptions == map[]
    {
      subscriptions := map[];
    }

    /** id is the freshly drawn subscription id; an id already in use keeps its subscription. */
    method Subscribe(subscriber: Uuid, typeUrl: string, filter: Option<MesTree>, durationMs: nat, now: int, id: Uuid)
      returns (status: SubscribeStatus)
      modifies this
      ensures status.InvalidSubscribe? <==> typeUrl == "" || filter.None? || durationMs == 0
      ensures status.InvalidSubscribe? ==> subscriptions == old(subscriptions)
      ensures status.Accepted? ==>
                && status == Accepted(id, now + durationMs)
                && subscriptions.Keys == old(subscriptions).Keys + {id}
                && (forall other | other in old(subscriptions) :: subscriptions[other] == old(subscriptions)[other])
                && (id !in old(subscriptions) ==>
                      subscriptions[id] == Subscription(subscriber, typeUrl, filter.value, now + durationMs))
      ensures status.Accepted? && id !in old(subscriptions) ==> id in Live(subscriptions, now)
    {
      if typeUrl == "" || filter.None? || durationMs == 0 {
        return InvalidSubscribe;
      }
      var expiresAt := now + durationMs;
      if id !in subscriptions {
        subscriptions := subscriptions[id := Subscription(subscriber, typeUrl, filter.value, expiresAt)];
      }
      return Accepted(id, expiresAt);
    }

    /** Only the subscriber itself can remove its subscription. */
    method Unsubscribe(subscriber: Uuid, id: Option<Bytes>) returns (status: UnsubscribeStatus)
      modifies this
      ensures status.InvalidUnsubscribe? <==> id.None? || |id.value| != 16
      ensures status.Removed? <==>
                && id.Some? && |id.value| == 16 && id.value in old(subscriptions)
                && old(subscriptions)[id.value].subscriber == subscriber
      ensures subscriptions == if status.Removed? then old(subscriptions) - {id.value} else old(subscriptions)
    {
      if id.None? || |id.value| != 16 {
        return InvalidUnsubscribe;
      }
      if id.value in subscriptions && subscriptions[id.value].subscriber == subscriber {
        subscriptions := subscriptions - {id.value};
        return Removed;
      }
      return NotFound;
    }

    /** Erases while iterating, counting what goes. */
    method RemoveExpired(now: int) returns (removed: nat)
      modifies this
      ensures subscriptions == Live(old(subscriptions), now)
      ensures forall id :: id in subscriptions <==> id in old(subscriptions) && old(subscriptions)[id].expiresAt > now
      ensures |old(subscriptions)| == |subscriptions| + removed
    {
      var ids := KeysInOrder(subscriptions);
      ghost var start, kept := subscriptions, Live(subscriptions, now);
      removed := 0;
      for i := 0 to |ids|
        invariant Swept(start, kept, ids[..i], subscriptions)
        invariant |start| == |subscriptions| + removed
        invariant forall k | i <= k < |ids| :: ids[k] in subscriptions
      {
        Unvisited(ids, i);
        SweptOne(start, kept, ids[..i], subscriptions, ids[i]);
        if subscriptions[ids[i]].expiresAt <= now {
          Erased(subscriptions, ids[i]);
          subscriptions := subscriptions - {ids[i]};
          removed := removed + 1;
        }
      }
      assert ids[..|ids|] == ids;
      SweptAll(start, kept, ids, subscriptions);
    }

    method RemoveAllForNode(node: Uuid) returns (removed: nat)
      modifies this
      ensures subscriptions == Excluding(old(subscriptions), {node})
      ensures forall id ::
                id in subscriptions <==> id in old(subscriptions) && old(subscriptions)[id].subscriber != node
      ensures |old(subscriptions)| == |subscriptions| + removed
    {
      var ids := KeysInOrder(subscriptions);
      ghost var start, kept := subscriptions, Excluding(subscriptions, {node});
      removed := 0;
      for i := 0 to |ids|
        invariant Swept(start, kept, ids[..i], subscriptions)
        invariant |start| == |subscriptions| + removed
        invariant forall k | i <= k < |ids| :: ids[k] in subscriptions
      {
        Unvisited(ids, i);
        SweptOne(start, kept, ids[..i], subscriptions, ids[i]);
        if subscriptions[ids[i]].subscriber == node {
          Erased(subscriptions, ids[i]);
          subscriptions := subscriptions - {ids[i]};
          removed := removed + 1;
        }
      }
      assert ids[..|ids|] == ids;
      SweptAll(start, kept, ids, subscriptions);
    }

    /** Publishes a record: expired subscriptions go first, then every live one that matches is
        tried, unless its subscriber already refused a delivery in this pass, in which case
        all of that subscriber's subscriptions are gone. ids is the order of the pass. */
    method Publish(payload: Option<Payload>, now: int, answers: nat -> bool)
      returns (stats: Stats, ids: seq<Uuid>, d: Deliveries)
      modifies this
      ensures payload.None? || payload.value.typeUrl == "" ==>
                stats == Stats(0, 0, 0, 0) && d == Deliveries([], {}, 0) && subscriptions == old(subscriptions)
      ensures payload.Some? && payload.value.typeUrl != "" ==>
                var live := Live(old(subscriptions), now);
                && Distinct(ids) && (forall id :: id in ids <==> id in live)
                && d == (if payload.value.unpacked.Some?
                         then OfferAll(live, payload.value.typeUrl, payload.value.unpacked.value, answers, ids)
                         else Deliveries([], {}, 0))
                && subscriptions == Excluding(live, d.failed)
                && stats.matched == |d.attempts| && stats.delivered == d.delivered
                && |old(subscriptions)| == |live| + stats.expired
      ensures |old(subscriptions)| == |subscriptions| + stats.expired + stats.removedOnFailure
      ensures stats.matched == stats.delivered + |d.failed|
    {
      stats, ids, d := Stats(0, 0, 0, 0), [], Deliveries([], {}, 0);
      if payload.None? || payload.value.typeUrl == "" {
        return;
      }
      var expired := RemoveExpired(now);
      stats := stats.(expired := expired);
      ids := KeysInOrder(subscriptions);
      var live := subscriptions;
      NoneExcluded(live);
      if payload.value.unpacked.None? {
        return;
      }
      var typeUrl, m := payload.value.typeUrl, payload.value.unpacked.value;
      var removed := 0;
      for i := 0 to |ids|
        invariant d == OfferAll(live, typeUrl, m, answers, ids[..i])
        invariant subscriptions == Excluding(live, d.failed)
        invariant |live| == |subscriptions| + removed
      {
        assert ids[..i + 1][..i] == ids[..i];
        var subscriber := live[ids[i]].subscriber;
        if subscriber in d.failed || !Matches(live[ids[i]], typeUrl, m) {
          continue;
        }
        if !answers(|d.attempts|) {
          ExcludingMore(live, d.failed, subscriber);
          d := Deliveries(d.attempts + [ids[i]], d.failed + {subscriber}, d.delivered);
          var gone := RemoveAllForNode(subscriber);
          removed := removed + gone;
          continue;
        }
        d := Deliveries(d.attempts + [ids[i]], d.failed, d.delivered + 1);
      }
      assert ids[..|ids|] == ids;
      AttemptsCounted(live, typeUrl, m, answers, ids);
      stats := Stats(|d.attempts|, d.delivered, expired, removed);
    }
  }

  lemma NoneExcluded(subs: Subscriptions)
    ensures Excluding(subs, {}) == subs
  {
  }

  /** The next id of a list without repetition has not been visited. */
  lemma Unvisited(ids: seq<Uuid>, i: nat)
    requires Distinct(ids) && i < |ids|
    ensures ids[i] !in ids[..i] && forall k | i < k < |ids| :: ids[k] != ids[i]
  {
    DistinctMeans(ids);
  }
}
