/** What an installed key depends on (common/node.cpp): the bytes that are hashed, and that over
    whole runs a key belongs to one session, one pair of nodes and one agreed secret. */
module AesKeys {
  import opened Common
  import opened AesNegotiation
  import opened AesProtocol

  // ---------------------------------------------------------------- the hashed bytes

  /** The two ids are the same, or the first byte in which they differ is smaller in lower. */
  predicate NotAbove(lower: Bytes, upper: Bytes)
    requires |lower| == |upper|
  {
    lower == upper || exists i | 0 <= i < |lower| :: lower[..i] == upper[..i] && lower[i] < upper[i]
  }

  lemma {:induction false} LexLeIsNotAbove(a: Bytes, b: Bytes)
    requires |a| == |b| && LexLe(a, b)
    ensures NotAbove(a, b)
  {
    if a != [] {
      if a[0] < b[0] {
        assert a[..0] == b[..0];
      } else {
        LexLeIsNotAbove(a[1..], b[1..]);
        if a[1..] != b[1..] {
          var i :| 0 <= i < |a[1..]| && a[1..][..i] == b[1..][..i] && a[1..][i] < b[1..][i];
          assert a[..i + 1] == [a[0]] + a[1..][..i] && b[..i + 1] == [b[0]] + b[1..][..i];
          assert a[i + 1] < b[i + 1];
        }
      }
    }
  }

  predicate InOrder(a: NodeId, b: NodeId, lower: NodeId, upper: NodeId) {
    NotAbove(lower, upper) && ((lower == a && upper == b) || (lower == b && upper == a))
  }

  /** x holds the secret, the key id, the lower and then the upper node id, and at its end the
      text "rsp-aes-negotiation-v1". */
  ghost predicate Layout(x: Bytes, secret: Bytes, keyId: Uuid, a: NodeId, b: NodeId) {
    var n := |secret|;
    && |x| == n + 70
    && x[..n] == secret && x[n..n + 16] == keyId
    && (exists lower: NodeId, upper: NodeId | InOrder(a, b, lower, upper) ::
          x[n + 16..n + 32] == lower && x[n + 32..n + 48] == upper)
    && forall i | 0 <= i < 22 :: x[n + 48 + i] == "rsp-aes-negotiation-v1"[i] as int
  }

  lemma ContextText()
    ensures |KDF_CONTEXT| == 22
    ensures forall i | 0 <= i < 22 :: KDF_CONTEXT[i] == "rsp-aes-negotiation-v1"[i] as int
  {
  }

  lemma Pieces(s: Bytes, k: Bytes, l: Bytes, u: Bytes, t: Bytes)
    requires |k| == |l| == |u| == 16
    ensures var x := s + k + l + u + t;
            var n := |s|;
            && |x| == n + 48 + |t| && x[..n] == s && x[n..n + 16] == k
            && x[n + 16..n + 32] == l && x[n + 32..n + 48] == u && x[n + 48..] == t
  {
  }

  /** Key material is the hash of bytes laid out like that. */
  lemma KeyMaterialLayout(c: Crypto, secret: Bytes, keyId: Uuid, a: NodeId, b: NodeId)
    ensures exists x :: Layout(x, secret, keyId, a, b) && KeyMaterial(c, secret, keyId, a, b) == c.sha256(x)
  {
    var lower, upper := if LexLe(a, b) then a else b, if LexLe(a, b) then b else a;
    LexLeOrder(a, b);
    LexLeIsNotAbove(lower, upper);
    ContextText();
    Pieces(secret, keyId, lower, upper, KDF_CONTEXT);
    var x := secret + keyId + lower + upper + KDF_CONTEXT;
    assert InOrder(a, b, lower, upper);
    forall i | 0 <= i < 22 ensures x[|secret| + 48 + i] == "rsp-aes-negotiation-v1"[i] as int {
      assert x[|secret| + 48..][i] == KDF_CONTEXT[i];
    }
    assert Layout(x, secret, keyId, a, b);
  }

  ghost predicate Injective(c: Crypto) {
    forall x, y :: c.sha256(x) == c.sha256(y) ==> x == y
  }

  lemma LayoutBinds(x: Bytes, s: Bytes, k: Uuid, a: NodeId, b: NodeId, s': Bytes, k': Uuid, a': NodeId, b': NodeId)
    requires Layout(x, s, k, a, b) && Layout(x, s', k', a', b')
    ensures s == s' && k == k' && {a, b} == {a', b'}
  {
  }

  /** Key material binds the secret, the key id and the pair of nodes: under a hash without
      collisions it is equal only if all three are. */
  lemma KeyMaterialBinds(c: Crypto, s: Bytes, k: Uuid, a: NodeId, b: NodeId,
                         s': Bytes, k': Uuid, a': NodeId, b': NodeId)
    requires Injective(c)
    ensures KeyMaterial(c, s, k, a, b) == KeyMaterial(c, s', k', a', b') ==> s == s' && k == k' && {a, b} == {a', b'}
  {
    KeyMaterialLayout(c, s, k, a, b);
    KeyMaterialLayout(c, s', k', a', b');
    if KeyMaterial(c, s, k, a, b) == KeyMaterial(c, s', k', a', b') {
      var x :| Layout(x, s, k, a, b) && KeyMaterial(c, s, k, a, b) == c.sha256(x);
      var y :| Layout(y, s', k', a', b') && KeyMaterial(c, s', k', a', b') == c.sha256(y);
      LayoutBinds(x, s, k, a, b, s', k', a', b');
    }
  }

  // ---------------------------------------------------------------- over runs

  /** The secret the two ends of an answered session agree on. */
  function SecretOf(c: Crypto, s: Session): Option<Bytes>
    requires s.answer.Some?
  {
    c.agree(s.ephemeral, c.publicKey(s.answer.value.ephemeral))
  }

  /** n holds an active key for q. */
  predicate HasKey(w: World, n: NodeId, q: NodeId) {
    n in w.nodes && q in w.nodes[n].active
  }

  lemma KeyOfSession(c: Crypto, w: World, n: NodeId, q: NodeId)
    requires c.Symmetric() && Inv(c, w) && HasKey(w, n, q)
    ensures var a := w.nodes[n].active[q];
            && a.keyId in w.sessions && |a.keyId| == 16
            && var s := w.sessions[a.keyId];
               && s.answer.Some? && SecretOf(c, s).Some? && {n, q} == {s.initiator, s.responder}
               && a.keyMaterial == KeyMaterial(c, SecretOf(c, s).value, a.keyId, n, q)
  {
    var a := w.nodes[n].active[q];
    assert NodeOk(c, w.sessions, n, w.nodes[n]) && ActiveOk(c, w.sessions, n, q, a);
    var s := w.sessions[a.keyId];
    assert c.agree(s.answer.value.ephemeral, c.publicKey(s.ephemeral)) == SecretOf(c, s);
  }

  /** In every run, whatever the hash: an active key is the hash of bytes that hold the secret its
      session agreed on, its key id and the ids of its two nodes. */
  lemma InstalledKeyLayout(c: Crypto, w: World, steps: seq<Step>, n: NodeId, q: NodeId)
    requires c.Symmetric() && Init(w) && HasKey(Run(c, w, steps), n, q)
    ensures var r := Run(c, w, steps);
            var a := r.nodes[n].active[q];
            && a.keyId in r.sessions && |a.keyId| == 16
            && var s := r.sessions[a.keyId];
               && s.answer.Some? && SecretOf(c, s).Some?
               && exists x :: Layout(x, SecretOf(c, s).value, a.keyId, n, q) && a.keyMaterial == c.sha256(x)
  {
    RunInv(c, w, steps);
    var r := Run(c, w, steps);
    KeyOfSession(c, r, n, q);
    var a := r.nodes[n].active[q];
    KeyMaterialLayout(c, SecretOf(c, r.sessions[a.keyId]).value, a.keyId, n, q);
  }

  /** In every run: any two active keys, wherever held, have the same key material if and only if
      they have the same key id. Then they are the two ends of one session, and their common
      secret is the one agreed in it. */
  lemma KeyIffSession(c: Crypto, w: World, steps: seq<Step>, n: NodeId, q: NodeId, n': NodeId, q': NodeId)
    requires c.Symmetric() && Injective(c) && Init(w)
    requires HasKey(Run(c, w, steps), n, q) && HasKey(Run(c, w, steps), n', q')
    ensures var r := Run(c, w, steps);
            var a, a' := r.nodes[n].active[q], r.nodes[n'].active[q'];
            && (a.keyMaterial == a'.keyMaterial <==> a.keyId == a'.keyId)
            && (a.keyMaterial == a'.keyMaterial ==> {n, q} == {n', q'})
  {
    RunInv(c, w, steps);
    var r := Run(c, w, steps);
    KeyOfSession(c, r, n, q);
    KeyOfSession(c, r, n', q');
    var a, a' := r.nodes[n].active[q], r.nodes[n'].active[q'];
    var s, s' := SecretOf(c, r.sessions[a.keyId]).value, SecretOf(c, r.sessions[a'.keyId]).value;
    if a.keyId == a'.keyId {
      SamePair(n, q, n', q', r.sessions[a.keyId]);
      KeyMaterialSymmetric(c, s, a.keyId, n, q);
    }
    KeyMaterialBinds(c, s, a.keyId, n, q, s', a'.keyId, n', q');
  }

  lemma SamePair(n: NodeId, q: NodeId, n': NodeId, q': NodeId, s: Session)
    requires {n, q} == {s.initiator, s.responder} == {n', q'}
    ensures (n' == n && q' == q) || (n' == q && q' == n)
  {
    assert n in {n', q'} && q in {n', q'} && n' in {n, q} && q' in {n, q};
  }

  /** In every run: keys of sessions that agreed on different secrets differ. */
  lemma SecretDecidesKey(c: Crypto, w: World, steps: seq<Step>, n: NodeId, q: NodeId, n': NodeId, q': NodeId)
    requires c.Symmetric() && Injective(c) && Init(w)
    requires HasKey(Run(c, w, steps), n, q) && HasKey(Run(c, w, steps), n', q')
    ensures var r := Run(c, w, steps);
            var a, a' := r.nodes[n].active[q], r.nodes[n'].active[q'];
            && a.keyId in r.sessions && a'.keyId in r.sessions
            && var s, s' := r.sessions[a.keyId], r.sessions[a'.keyId];
               && s.answer.Some? && s'.answer.Some?
               && (SecretOf(c, s) != SecretOf(c, s') ==> a.keyMaterial != a'.keyMaterial)
  {
    RunInv(c, w, steps);
    KeyOfSession(c, Run(c, w, steps), n, q);
    KeyOfSession(c, Run(c, w, steps), n', q');
    KeyIffSession(c, w, steps, n, q, n', q');
  }
}
