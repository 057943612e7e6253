/** The cache of peer identities (common/node.cpp): a map from node id to public key and a
    usage list, newest first, trimmed to a maximum. */
module IdentityCache {
  import opened Common

  /** nodeIdOf gives the node id of a public key, if the key can be read. */
  type KeyHash = Bytes -> Option<Uuid>

  // ---------------------------------------------------------------- lists without repetition

  function Without(s: seq<Uuid>, x: Uuid): seq<Uuid> {
    if s == [] then []
    else if s[0] == x then Without(s[1..], x)
    else [s[0]] + Without(s[1..], x)
  }

  function Take(s: seq<Uuid>, n: nat): seq<Uuid> {
    if |s| <= n then s else s[..n]
  }

  lemma {:induction false} WithoutMembers(s: seq<Uuid>, x: Uuid)
    ensures forall y :: y in Without(s, x) <==> y in s && y != x
    ensures x !in s ==> Without(s, x) == s
  {
    if s != [] {
      WithoutMembers(s[1..], x);
      assert s == [s[0]] + s[1..];
    }
  }

  lemma {:induction false} WithoutDistinct(s: seq<Uuid>, x: Uuid)
    requires Distinct(s)
    ensures Distinct(Without(s, x))
    ensures |Without(s, x)| == |s| - (if x in s then 1 else 0)
  {
    if s != [] {
      WithoutDistinct(s[1..], x);
      WithoutMembers(s[1..], x);
    }
  }

  /** Leaving one element out before cutting is leaving it out after cutting one later. */
  lemma {:induction false} TakeWithout(s: seq<Uuid>, x: Uuid, n: nat)
    requires Distinct(s)
    ensures Take(Without(s, x), n) == if x in Take(s, n + 1) then Without(Take(s, n + 1), x) else Take(s, n)
  {
    if s != [] {
      TakeCons(s, n + 1);
      if s[0] == x {
        WithoutMembers(s[1..], x);
        WithoutMembers(Take(s[1..], n), x);
      } else if n > 0 {
        TakeWithout(s[1..], x, n - 1);
        TakeCons(s, n);
        TakeCons(Without(s, x), n);
        assert x in Take(s, n + 1) <==> x in Take(s[1..], n);
      } else {
        assert Take(s, 1) == [s[0]] && Take(s, 0) == [];
      }
    }
  }

  lemma TakeCons(s: seq<Uuid>, n: nat)
    requires s != [] && n > 0
    ensures Take(s, n) == [s[0]] + Take(s[1..], n - 1)
    ensures Take(s, n)[1..] == Take(s[1..], n - 1)
  {
  }

  // ---------------------------------------------------------------- the cache as a value

  datatype Cache = Cache(entries: map<Uuid, Bytes>, usage: seq<Uuid>, maximum: nat)

  /** The usage list is a duplicate-free ordering of the map's keys. */
  predicate Aligned(entries: map<Uuid, Bytes>, usage: seq<Uuid>) {
    && Distinct(usage)
    && (forall id | id in entries :: id in usage)
    && (forall id | id in usage :: id in entries)
  }

  function Restrict(entries: map<Uuid, Bytes>, ids: seq<Uuid>): map<Uuid, Bytes> {
    map id | id in entries && id in ids :: entries[id]
  }

  function Trim(c: Cache): Cache {
    var usage := Take(c.usage, c.maximum);
    c.(usage := usage, entries := Restrict(c.entries, usage))
  }

  function Observe(c: Cache, id: Uuid, key: Bytes): Cache {
    var used := c.(entries := c.entries[id := key], usage := [id] + Without(c.usage, id));
    if id in c.entries then used else Trim(used)
  }

  function SetMaximum(c: Cache, maximum: nat): Cache {
    Trim(c.(maximum := maximum))
  }

  datatype Operation = Observed(id: Uuid, key: Bytes) | MaximumSet(maximum: nat)

  function Apply(c: Cache, op: Operation): Cache {
    match op
    case Observed(id, key) => Observe(c, id, key)
    case MaximumSet(maximum) => SetMaximum(c, maximum)
  }

  function After(maximum: nat, ops: seq<Operation>): Cache {
    if ops == [] then Cache(map[], [], maximum) else Apply(After(maximum, ops[..|ops| - 1]), ops[|ops| - 1])
  }

  // ---------------------------------------------------------------- what it should hold

  /** All ids observed, most recently observed first. */
  function Recent(ops: seq<Operation>): seq<Uuid> {
    if ops == [] then []
    else
      var earlier := Recent(ops[..|ops| - 1]);
      match ops[|ops| - 1]
      case Observed(id, _) => [id] + Without(earlier, id)
      case MaximumSet(_) => earlier
  }

  /** Index one past the last observation of id; zero if there was none. */
  function LastSeen(ops: seq<Operation>, id: Uuid): nat {
    if ops == [] then 0
    else if ops[|ops| - 1].Observed? && ops[|ops| - 1].id == id then |ops|
    else LastSeen(ops[..|ops| - 1], id)
  }

  lemma {:induction false} LastSeenBound(ops: seq<Operation>, id: Uuid)
    ensures LastSeen(ops, id) <= |ops|
    ensures LastSeen(ops, id) > 0 ==> ops[LastSeen(ops, id) - 1].Observed? && ops[LastSeen(ops, id) - 1].id == id
    ensures forall k | LastSeen(ops, id) <= k < |ops| :: !(ops[k].Observed? && ops[k].id == id)
  {
    if ops != [] { LastSeenBound(ops[..|ops| - 1], id); }
  }

  /** s lists ids from the latest seen to the earliest. */
  predicate NewestFirst(ops: seq<Operation>, s: seq<Uuid>) {
    forall i, j | 0 <= i < j < |s| :: LastSeen(ops, s[i]) > LastSeen(ops, s[j])
  }

  lemma {:induction false} WithoutNewestFirst(ops: seq<Operation>, s: seq<Uuid>, x: Uuid)
    requires NewestFirst(ops, s)
    ensures NewestFirst(ops, Without(s, x))
  {
    if s != [] {
      assert NewestFirst(ops, s[1..]);
      WithoutNewestFirst(ops, s[1..], x);
      WithoutMembers(s[1..], x);
      forall k | 0 <= k < |Without(s[1..], x)| ensures LastSeen(ops, s[0]) > LastSeen(ops, Without(s[1..], x)[k]) {
        assert Without(s[1..], x)[k] in s[1..];
      }
    }
  }

  lemma {:induction false} RecentMembers(ops: seq<Operation>)
    ensures Distinct(Recent(ops))
    ensures forall id :: id in Recent(ops) <==> LastSeen(ops, id) > 0
  {
    if ops != [] {
      var before := ops[..|ops| - 1];
      RecentMembers(before);
      if ops[|ops| - 1].Observed? {
        WithoutMembers(Recent(before), ops[|ops| - 1].id);
        WithoutDistinct(Recent(before), ops[|ops| - 1].id);
      }
    }
  }

  /** Ids other than the one observed last keep their place in time. */
  lemma LaterNewestFirst(ops: seq<Operation>, rest: seq<Uuid>)
    requires ops != [] && ops[|ops| - 1].Observed? && ops[|ops| - 1].id !in rest
    requires NewestFirst(ops[..|ops| - 1], rest)
    ensures NewestFirst(ops, [ops[|ops| - 1].id] + rest)
  {
    var before := ops[..|ops| - 1];
    forall k | 0 <= k < |rest| ensures LastSeen(ops, rest[k]) == LastSeen(before, rest[k]) < |ops| {
      assert rest[k] in rest;
      LastSeenBound(before, rest[k]);
    }
  }

  /** Recent lists exactly the observed ids, each once, by descending last observation. */
  lemma {:induction false} RecentMeaning(ops: seq<Operation>)
    ensures Distinct(Recent(ops))
    ensures forall id :: id in Recent(ops) <==> LastSeen(ops, id) > 0
    ensures NewestFirst(ops, Recent(ops))
  {
    RecentMembers(ops);
    if ops != [] {
      var before := ops[..|ops| - 1];
      RecentMeaning(before);
      if ops[|ops| - 1].Observed? {
        WithoutMembers(Recent(before), ops[|ops| - 1].id);
        WithoutNewestFirst(before, Recent(before), ops[|ops| - 1].id);
        LaterNewestFirst(ops, Without(Recent(before), ops[|ops| - 1].id));
      } else {
        SameNewestFirst(ops, Recent(before));
      }
    }
  }

  lemma SameNewestFirst(ops: seq<Operation>, s: seq<Uuid>)
    requires ops != [] && ops[|ops| - 1].MaximumSet? && NewestFirst(ops[..|ops| - 1], s)
    ensures NewestFirst(ops, s)
  {
    assert forall id :: LastSeen(ops, id) == LastSeen(ops[..|ops| - 1], id);
  }

  /** The key of the last observation of id. */
  function LastKey(ops: seq<Operation>, id: Uuid): Option<Bytes> {
    if ops == [] then None
    else if ops[|ops| - 1].Observed? && ops[|ops| - 1].id == id then Some(ops[|ops| - 1].key)
    else LastKey(ops[..|ops| - 1], id)
  }

  // ---------------------------------------------------------------- the cache refines the history

  lemma TrimAligned(c: Cache)
    requires Aligned(c.entries, c.usage)
    ensures Aligned(Trim(c).entries, Trim(c).usage)
  {
    var usage := Take(c.usage, c.maximum);
    if c.maximum < |c.usage| { DistinctPrefix(c.usage, c.maximum); }
    forall id | id in usage ensures id in Trim(c).entries {
      assert id in c.usage;
    }
  }

  lemma ApplyAligned(c: Cache, op: Operation)
    requires Aligned(c.entries, c.usage)
    ensures Aligned(Apply(c, op).entries, Apply(c, op).usage)
  {
    match op
    case MaximumSet(maximum) => TrimAligned(c.(maximum := maximum));
    case Observed(id, key) =>
      WithoutMembers(c.usage, id);
      WithoutDistinct(c.usage, id);
      var used := c.(entries := c.entries[id := key], usage := [id] + Without(c.usage, id));
      assert Aligned(used.entries, used.usage);
      TrimAligned(used);
  }

  /** In every reachable state the usage list orders the map's keys without repetition. */
  lemma {:induction false} AlwaysAligned(maximum: nat, ops: seq<Operation>)
    ensures Aligned(After(maximum, ops).entries, After(maximum, ops).usage)
  {
    if ops != [] {
      AlwaysAligned(maximum, ops[..|ops| - 1]);
      ApplyAligned(After(maximum, ops[..|ops| - 1]), ops[|ops| - 1]);
    }
  }

  /** The maximum never goes up. */
  predicate NeverRaised(maximum: nat, ops: seq<Operation>) {
    ops != [] ==>
      && NeverRaised(maximum, ops[..|ops| - 1])
      && (ops[|ops| - 1].MaximumSet? ==> ops[|ops| - 1].maximum <= After(maximum, ops[..|ops| - 1]).maximum)
  }

  lemma UsedAgain(recent: seq<Uuid>, maximum: nat, id: Uuid)
    requires Distinct(recent) && id in Take(recent, maximum)
    ensures [id] + Without(Take(recent, maximum), id) == Take([id] + Without(recent, id), maximum)
  {
    TakeWithout(recent, id, maximum - 1);
    TakeCons([id] + Without(recent, id), maximum);
  }

  lemma UsedFirst(recent: seq<Uuid>, maximum: nat, id: Uuid)
    requires Distinct(recent) && id !in Take(recent, maximum)
    ensures Take([id] + Without(Take(recent, maximum), id), maximum) == Take([id] + Without(recent, id), maximum)
  {
    var usage := Take(recent, maximum);
    WithoutMembers(usage, id);
    if maximum > 0 {
      TakeWithout(recent, id, maximum - 1);
      TakeCons([id] + Without(recent, id), maximum);
      TakeCons([id] + usage, maximum);
    }
  }

  lemma ObserveRefines(c: Cache, recent: seq<Uuid>, id: Uuid, key: Bytes)
    requires Distinct(recent) && c.usage == Take(recent, c.maximum) && Aligned(c.entries, c.usage)
    ensures Observe(c, id, key).usage == Take([id] + Without(recent, id), c.maximum)
  {
    if id in c.entries {
      UsedAgain(recent, c.maximum, id);
    } else {
      UsedFirst(recent, c.maximum, id);
    }
  }

  /** As long as the maximum is never raised (in particular while it is fixed), the cached ids
      are exactly the most recently observed distinct ids up to the maximum, in that order. */
  lemma {:induction false} CacheIsRecent(maximum: nat, ops: seq<Operation>)
    requires NeverRaised(maximum, ops)
    ensures After(maximum, ops).usage == Take(Recent(ops), After(maximum, ops).maximum)
  {
    if ops != [] {
      var before := ops[..|ops| - 1];
      var c := After(maximum, before);
      CacheIsRecent(maximum, before);
      AlwaysAligned(maximum, before);
      RecentMeaning(before);
      match ops[|ops| - 1]
      case Observed(id, key) => ObserveRefines(c, Recent(before), id, key);
      case MaximumSet(m) => assert Take(Take(Recent(before), c.maximum), m) == Take(Recent(before), m);
    }
  }

  lemma {:induction false} WithoutPrefix(u: seq<Uuid>, s: seq<Uuid>, x: Uuid)
    requires u <= s
    ensures Without(u, x) <= Without(s, x)
  {
    if u != [] { WithoutPrefix(u[1..], s[1..], x); }
  }

  lemma ObservePrefix(c: Cache, recent: seq<Uuid>, id: Uuid, key: Bytes)
    requires c.usage <= recent
    ensures Observe(c, id, key).usage <= [id] + Without(recent, id)
  {
    WithoutPrefix(c.usage, recent, id);
  }

  /** However the maximum is changed, what is cached is always an unbroken run of the most
      recently observed ids: nothing is kept while something observed later is gone. */
  lemma {:induction false} CacheIsPrefixOfRecent(maximum: nat, ops: seq<Operation>)
    ensures After(maximum, ops).usage <= Recent(ops)
  {
    if ops != [] {
      var before := ops[..|ops| - 1];
      CacheIsPrefixOfRecent(maximum, before);
      if ops[|ops| - 1].Observed? {
        ObservePrefix(After(maximum, before), Recent(before), ops[|ops| - 1].id, ops[|ops| - 1].key);
      }
    }
  }

  /** Every cached id carries the key it was last observed with. */
  lemma {:induction false} CachedKeyIsLast(maximum: nat, ops: seq<Operation>, id: Uuid)
    requires id in After(maximum, ops).entries
    ensures LastKey(ops, id) == Some(After(maximum, ops).entries[id])
  {
    if ops != [] {
      var last := ops[|ops| - 1];
      if !(last.Observed? && last.id == id) { CachedKeyIsLast(maximum, ops[..|ops| - 1], id); }
    }
  }

  /** If every observation was made under the hash of its key, every entry is kept under the
      hash of its own key. */
  lemma {:induction false} AlwaysSelfKeyed(nodeIdOf: KeyHash, maximum: nat, ops: seq<Operation>)
    requires forall op | op in ops && op.Observed? :: nodeIdOf(op.key) == Some(op.id)
    ensures SelfKeyed(nodeIdOf, After(maximum, ops).entries)
  {
    forall id | id in After(maximum, ops).entries ensures nodeIdOf(After(maximum, ops).entries[id]) == Some(id) {
      CachedKeyIsLast(maximum, ops, id);
      LastKeyObserved(ops, id);
    }
  }

  lemma {:induction false} LastKeyObserved(ops: seq<Operation>, id: Uuid)
    requires LastKey(ops, id).Some?
    ensures Observed(id, LastKey(ops, id).value) in ops
  {
    var last := ops[|ops| - 1];
    if !(last.Observed? && last.id == id) { LastKeyObserved(ops[..|ops| - 1], id); }
  }

  /** Whatever the maxima, the cache never holds more than the maximum now in force. */
  lemma {:induction false} NeverOverMaximum(maximum: nat, ops: seq<Operation>)
    ensures |After(maximum, ops).usage| <= After(maximum, ops).maximum
  {
    if ops != [] {
      var c := After(maximum, ops[..|ops| - 1]);
      NeverOverMaximum(maximum, ops[..|ops| - 1]);
      AlwaysAligned(maximum, ops[..|ops| - 1]);
      if ops[|ops| - 1].Observed? {
        WithoutDistinct(c.usage, ops[|ops| - 1].id);
      }
    }
  }

  // ---------------------------------------------------------------- which identities are taken

  /** The id under which an identity is cached: that of its own key, provided the message,
      if it names a sender, came from that node. */
  function AcceptedId(nodeIdOf: KeyHash, key: Bytes, source: Option<Uuid>): Option<Uuid> {
    var id := nodeIdOf(key);
    if id.None? || (source.Some? && source.value != id.value) then None else id
  }

  /** The observations a list of identities amounts to. */
  function Observations(nodeIdOf: KeyHash, keys: seq<Bytes>, source: Option<Uuid>): seq<Operation> {
    if keys == [] then []
    else
      var last := keys[|keys| - 1];
      Observations(nodeIdOf, keys[..|keys| - 1], source)
      + (match AcceptedId(nodeIdOf, last, source) case Some(id) => [Observed(id, last)] case None => [])
  }

  function ApplyAll(c: Cache, ops: seq<Operation>): Cache {
    if ops == [] then c else Apply(ApplyAll(c, ops[..|ops| - 1]), ops[|ops| - 1])
  }

  /** A message's identities taken one by one, and whether any was cached. */
  function TakeEach(nodeIdOf: KeyHash, c: Cache, keys: seq<Bytes>, source: Option<Uuid>): (Cache, bool) {
    if keys == [] then (c, false)
    else
      var (c', cached) := TakeEach(nodeIdOf, c, keys[..|keys| - 1], source);
      TakeOne(nodeIdOf, c', keys[|keys| - 1], source, cached)
  }

  function TakeOne(nodeIdOf: KeyHash, c: Cache, key: Bytes, source: Option<Uuid>, cached: bool): (Cache, bool) {
    match AcceptedId(nodeIdOf, key, source)
    case Some(id) => (Observe(c, id, key), true)
    case None => (c, cached)
  }

  lemma TakeEachSnoc(nodeIdOf: KeyHash, c: Cache, keys: seq<Bytes>, key: Bytes, source: Option<Uuid>)
    ensures var (c', cached) := TakeEach(nodeIdOf, c, keys, source);
            TakeEach(nodeIdOf, c, keys + [key], source) == TakeOne(nodeIdOf, c', key, source, cached)
  {
    assert (keys + [key])[..|keys|] == keys;
  }

  /** Taking a message's identities one by one is applying exactly its acceptable ones, in
      order; something was cached exactly when there was one. */
  lemma {:induction false} TakeEachIsApplyAll(nodeIdOf: KeyHash, c: Cache, keys: seq<Bytes>, source: Option<Uuid>)
    ensures var ops := Observations(nodeIdOf, keys, source);
            TakeEach(nodeIdOf, c, keys, source) == (ApplyAll(c, ops), ops != [])
  {
    if keys != [] {
      var before := Observations(nodeIdOf, keys[..|keys| - 1], source);
      TakeEachIsApplyAll(nodeIdOf, c, keys[..|keys| - 1], source);
      var id := AcceptedId(nodeIdOf, keys[|keys| - 1], source);
      if id.Some? {
        var op := Observed(id.value, keys[|keys| - 1]);
        assert Observations(nodeIdOf, keys, source) == before + [op] && (before + [op])[..|before|] == before;
      } else {
        assert Observations(nodeIdOf, keys, source) == before;
      }
    }
  }

  /** An identity is observed exactly if its key can be read and, when the message names a sender,
      the key is that sender's; it is observed under the id of its key. */
  lemma {:induction false} ObservedIff(nodeIdOf: KeyHash, keys: seq<Bytes>, source: Option<Uuid>, op: Operation)
    ensures op in Observations(nodeIdOf, keys, source)
       <==> && op.Observed? && op.key in keys && nodeIdOf(op.key) == Some(op.id)
            && (source.Some? ==> op.id == source.value)
  {
    if keys != [] {
      ObservedIff(nodeIdOf, keys[..|keys| - 1], source, op);
      assert keys == keys[..|keys| - 1] + [keys[|keys| - 1]];
    }
  }

  /** A message that names its sender changes no entry but that sender's, except by eviction. */
  lemma {:induction false} OthersKept(nodeIdOf: KeyHash, c: Cache, keys: seq<Bytes>, source: Uuid, id: Uuid)
    requires id != source
    ensures var c' := TakeEach(nodeIdOf, c, keys, Some(source)).0;
            id in c'.entries ==> id in c.entries && c'.entries[id] == c.entries[id]
  {
    if keys != [] { OthersKept(nodeIdOf, c, keys[..|keys| - 1], source, id); }
  }

  /** The identity taken last is the most recently used. */
  lemma LastIsNewest(nodeIdOf: KeyHash, c: Cache, keys: seq<Bytes>, key: Bytes, source: Option<Uuid>, id: Uuid)
    requires nodeIdOf(key) == Some(id) && (source.Some? ==> source.value == id) && c.maximum > 0
    ensures var (c', cached) := TakeEach(nodeIdOf, c, keys + [key], source);
            cached && c'.usage != [] && c'.usage[0] == id && id in c'.entries && c'.entries[id] == key
  {
    TakeEachSnoc(nodeIdOf, c, keys, key, source);
    MaximumKept(nodeIdOf, c, keys, source);
  }

  lemma {:induction false} MaximumKept(nodeIdOf: KeyHash, c: Cache, keys: seq<Bytes>, source: Option<Uuid>)
    ensures TakeEach(nodeIdOf, c, keys, source).0.maximum == c.maximum
  {
    if keys != [] { MaximumKept(nodeIdOf, c, keys[..|keys| - 1], source); }
  }

  /** A run continued is one run, so what holds of every run holds after observing a message. */
  lemma {:induction false} AfterAll(maximum: nat, ops: seq<Operation>, more: seq<Operation>)
    ensures ApplyAll(After(maximum, ops), more) == After(maximum, ops + more)
    decreases |more|
  {
    if more == [] {
      assert ops + more == ops;
    } else {
      var before := more[..|more| - 1];
      AfterAll(maximum, ops, before);
      assert (ops + more)[..|ops + more| - 1] == ops + before;
    }
  }

  /** Entries are keyed by the hash of their own public key. */
  predicate SelfKeyed(nodeIdOf: KeyHash, entries: map<Uuid, Bytes>) {
    forall id | id in entries :: nodeIdOf(entries[id]) == Some(id)
  }

  // ---------------------------------------------------------------- the cache object

  class IdentityStore {
    const nodeIdOf: KeyHash
    var entries: map<Uuid, Bytes>
    var usageOrder: seq<Uuid>
    var maximumEntries: nat

    function State(): Cache
      reads this
    {
      Cache(entries, usageOrder, maximumEntries)
    }

    ghost predicate Valid()
      reads this
    {
      Aligned(entries, usageOrder) && SelfKeyed(nodeIdOf, entries)
    }

    constructor (nodeIdOf: KeyHash, maximumEntries: nat)
      ensures Valid() && this.nodeIdOf == nodeIdOf && State() == After(maximumEntries, [])
    {
      this.nodeIdOf, this.maximumEntries := nodeIdOf, maximumEntries;
      entries, usageOrder := map[], [];
    }

    /** Drops the least recently used entry of an overfull cache. */
    method DropLeastRecent()
      requires Valid() && |entries| > maximumEntries
      modifies this
      ensures Valid() && Trim(State()) == old(Trim(State()))
      ensures |usageOrder| < old(|usageOrder|)
    {
      DropKeeps(nodeIdOf, State());
      var last := |usageOrder| - 1;
      usageOrder, entries := usageOrder[..last], entries - {usageOrder[last]};
    }

    /** Drops least recently used entries until the map fits. */
    method TrimToLimit()
      requires Valid()
      modifies this
      ensures Valid() && State() == old(Trim(State()))
    {
      while |entries| > maximumEntries
        invariant Valid() && Trim(State()) == old(Trim(State()))
        decreases |usageOrder|
      {
        DropLeastRecent();
      }
      FitsAlready(State());
    }

    method CacheIdentity(key: Bytes, source: Option<Uuid>) returns (cached: bool)
      requires Valid()
      modifies this
      ensures Valid() && maximumEntries == old(maximumEntries)
      ensures cached == AcceptedId(nodeIdOf, key, source).Some?
      ensures State() == if cached then old(Observe(State(), AcceptedId(nodeIdOf, key, source).value, key))
                         else old(State())
    {
      var derived := nodeIdOf(key);
      if derived.None? {
        return false;
      }
      if source.Some? && source.value != derived.value {
        return false;
      }
      var id := derived.value;
      ApplyAligned(State(), Observed(id, key));
      WithoutMembers(usageOrder, id);
      WithoutDistinct(usageOrder, id);
      if id in entries {
        usageOrder := Without(usageOrder, id);
        usageOrder := [id] + usageOrder;
        entries := entries[id := key];
      } else {
        usageOrder := [id] + usageOrder;
        entries := entries[id := key];
        TrimToLimit();
      }
      return true;
    }

    /** The listed identities, after those in seen were taken from the cache start. */
    method ObserveListed(identities: seq<Bytes>, source: Option<Uuid>, before: bool, ghost start: Cache,
                         ghost seen: seq<Bytes>)
      returns (cached: bool)
      requires Valid() && (State(), before) == TakeEach(nodeIdOf, start, seen, source)
      modifies this
      ensures Valid() && (State(), cached) == TakeEach(nodeIdOf, start, seen + identities, source)
    {
      cached := before;
      assert seen + [] == seen;
      for i := 0 to |identities|
        invariant Valid() && (State(), cached) == TakeEach(nodeIdOf, start, seen + identities[..i], source)
      {
        ghost var taken := seen + identities[..i];
        TakeEachSnoc(nodeIdOf, start, taken, identities[i], source);
        assert taken + [identities[i]] == seen + identities[..i + 1];
        var one := CacheIdentity(identities[i], source);
        if one {
          cached := true;
        }
      }
      assert identities[..|identities|] == identities;
    }

    /** Caches what a message carries: its own identity first, then the listed ones. */
    method ObserveMessage(identity: Option<Bytes>, identities: seq<Bytes>, source: Option<Uuid>) returns (cached: bool)
      requires Valid()
      modifies this
      ensures Valid()
      ensures var keys := (if identity.Some? then [identity.value] else []) + identities;
              (State(), cached) == TakeEach(nodeIdOf, old(State()), keys, source)
    {
      ghost var start := State();
      ghost var seen: seq<Bytes> := [];
      cached := false;
      if identity.Some? {
        TakeEachSnoc(nodeIdOf, start, [], identity.value, source);
        cached := CacheIdentity(identity.value, source);
        seen := [] + [identity.value];
      }
      cached := ObserveListed(identities, source, cached, start, seen);
    }

    method SetMaximumEntries(maximum: nat)
      requires Valid()
      modifies this
      ensures Valid() && State() == old(SetMaximum(State(), maximum))
    {
      maximumEntries := maximum;
      TrimToLimit();
    }
  }

  lemma {:induction false} DistinctSize(ids: set<Uuid>, s: seq<Uuid>)
    requires Distinct(s) && forall id :: id in ids <==> id in s
    ensures |ids| == |s|
  {
    if s == [] {
      assert ids == {};
    } else {
      assert s == [s[0]] + s[1..];
      DistinctSize(ids - {s[0]}, s[1..]);
    }
  }

  /** The map and the list it is aligned with have the same size. */
  lemma SameSize(entries: map<Uuid, Bytes>, usage: seq<Uuid>)
    requires Aligned(entries, usage)
    ensures |entries| == |usage|
  {
    DistinctSize(entries.Keys, usage);
  }

  function Dropped(c: Cache): Cache
    requires c.usage != []
  {
    c.(usage := c.usage[..|c.usage| - 1], entries := c.entries - {c.usage[|c.usage| - 1]})
  }

  lemma DropAligned(c: Cache)
    requires c.usage != [] && Aligned(c.entries, c.usage)
    ensures Aligned(Dropped(c).entries, Dropped(c).usage)
  {
    var n := |c.usage| - 1;
    DistinctPrefix(c.usage, n);
    assert c.usage == c.usage[..n] + [c.usage[n]];
  }

  lemma DropTrims(c: Cache)
    requires |c.usage| > c.maximum && Aligned(c.entries, c.usage)
    ensures Trim(Dropped(c)) == Trim(c)
  {
    var n := |c.usage| - 1;
    DistinctPrefix(c.usage, n);
    var kept := Take(c.usage, c.maximum);
    assert Take(c.usage[..n], c.maximum) == kept;
    assert c.usage[n] !in kept by {
      assert forall id | id in kept :: id in c.usage[..n];
    }
    assert Restrict(Dropped(c).entries, kept) == Restrict(c.entries, kept);
  }

  /** Dropping the least recently used entry of an overfull cache does not change what
      trimming leaves. */
  lemma DropKeeps(nodeIdOf: KeyHash, c: Cache)
    requires Aligned(c.entries, c.usage) && SelfKeyed(nodeIdOf, c.entries) && |c.entries| > c.maximum
    ensures c.usage != [] && Trim(Dropped(c)) == Trim(c)
    ensures Aligned(Dropped(c).entries, Dropped(c).usage) && SelfKeyed(nodeIdOf, Dropped(c).entries)
  {
    SameSize(c.entries, c.usage);
    DropAligned(c);
    DropTrims(c);
  }

  lemma FitsAlready(c: Cache)
    requires Aligned(c.entries, c.usage) && |c.entries| <= c.maximum
    ensures Trim(c) == c
  {
    SameSize(c.entries, c.usage);
  }
}
