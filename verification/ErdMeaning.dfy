/** What the evaluators of common/endorsement/endorsement.cpp look at, and how the connectives
    behave: laws that say what the evaluators mean without saying how they compute it. */
module ErdMeaning {
  import opened Common
  import opened ErdTree

  // ---------------------------------------------------------------- endorsement predicates

  /** Which fields of an endorsement a predicate mentions. */
  predicate MentionsKind(t: EndTree) {
    match t
    case EndEquals(l, r) => (l.Some? && MentionsKind(l.value)) || (r.Some? && MentionsKind(r.value))
    case EndAnd(l, r) => (l.Some? && MentionsKind(l.value)) || (r.Some? && MentionsKind(r.value))
    case EndOr(l, r) => (l.Some? && MentionsKind(l.value)) || (r.Some? && MentionsKind(r.value))
    case EndAllOf(ts) => exists u | u in ts :: MentionsKind(u)
    case EndAnyOf(ts) => exists u | u in ts :: MentionsKind(u)
    case TypeEquals(_) => true
    case _ => false
  }

  predicate MentionsValue(t: EndTree) {
    match t
    case EndEquals(l, r) => (l.Some? && MentionsValue(l.value)) || (r.Some? && MentionsValue(r.value))
    case EndAnd(l, r) => (l.Some? && MentionsValue(l.value)) || (r.Some? && MentionsValue(r.value))
    case EndOr(l, r) => (l.Some? && MentionsValue(l.value)) || (r.Some? && MentionsValue(r.value))
    case EndAllOf(ts) => exists u | u in ts :: MentionsValue(u)
    case EndAnyOf(ts) => exists u | u in ts :: MentionsValue(u)
    case ValueEquals(_) => true
    case _ => false
  }

  predicate MentionsSigner(t: EndTree) {
    match t
    case EndEquals(l, r) => (l.Some? && MentionsSigner(l.value)) || (r.Some? && MentionsSigner(r.value))
    case EndAnd(l, r) => (l.Some? && MentionsSigner(l.value)) || (r.Some? && MentionsSigner(r.value))
    case EndOr(l, r) => (l.Some? && MentionsSigner(l.value)) || (r.Some? && MentionsSigner(r.value))
    case EndAllOf(ts) => exists u | u in ts :: MentionsSigner(u)
    case EndAnyOf(ts) => exists u | u in ts :: MentionsSigner(u)
    case SignerEquals(_) => true
    case _ => false
  }

  /** A predicate depends on nothing but the type, the value and the endorsement service, and on
      each of them only if it mentions it. */
  lemma {:induction false} DependsOnMentioned(t: EndTree, e: Endorsement, e': Endorsement)
    requires MentionsKind(t) ==> e.kind == e'.kind
    requires MentionsValue(t) ==> e.value == e'.value
    requires MentionsSigner(t) ==> e.service == e'.service
    ensures EvalEndorsement(t, e) == EvalEndorsement(t, e')
    decreases t
  {
    match t
    case EndEquals(l, r) =>
      if l.Some? { DependsOnMentioned(l.value, e, e'); }
      if r.Some? { DependsOnMentioned(r.value, e, e'); }
    case EndAnd(l, r) =>
      if l.Some? { DependsOnMentioned(l.value, e, e'); }
      if r.Some? { DependsOnMentioned(r.value, e, e'); }
    case EndOr(l, r) =>
      if l.Some? { DependsOnMentioned(l.value, e, e'); }
      if r.Some? { DependsOnMentioned(r.value, e, e'); }
    case EndAllOf(ts) => forall u | u in ts { DependsOnMentioned(u, e, e'); }
    case EndAnyOf(ts) => forall u | u in ts { DependsOnMentioned(u, e, e'); }
    case _ =>
  }

  /** Each leaf singles out exactly the endorsements with its literal in its field. */
  lemma LeafSelects(e: Endorsement, kind: Uuid, value: Bytes, service: Uuid)
    ensures EvalEndorsement(TypeEquals(Some(kind)), e) <==> e == e.(kind := kind)
    ensures EvalEndorsement(ValueEquals(value), e) <==> e == e.(value := value)
    ensures EvalEndorsement(SignerEquals(Some(service)), e) <==> e == e.(service := service)
    ensures !EvalEndorsement(TypeEquals(None), e) && !EvalEndorsement(SignerEquals(None), e)
  {
  }

  ghost predicate Alike(e: Endorsement, e': Endorsement) {
    forall t :: EvalEndorsement(t, e) == EvalEndorsement(t, e')
  }

  /** Two endorsements satisfy the same predicates if and only if they agree on type, value and
      endorsement service; subject, expiry and signature are never looked at. */
  lemma AlikeIff(e: Endorsement, e': Endorsement)
    ensures Alike(e, e') <==> e.kind == e'.kind && e.value == e'.value && e.service == e'.service
  {
    if Alike(e, e') {
      assert EvalEndorsement(TypeEquals(Some(e.kind)), e) == EvalEndorsement(TypeEquals(Some(e.kind)), e');
      assert EvalEndorsement(ValueEquals(e.value), e) == EvalEndorsement(ValueEquals(e.value), e');
      assert EvalEndorsement(SignerEquals(Some(e.service)), e) == EvalEndorsement(SignerEquals(Some(e.service)), e');
    }
    if e.kind == e'.kind && e.value == e'.value && e.service == e'.service {
      forall t { DependsOnMentioned(t, e, e'); }
    }
  }

  // ---------------------------------------------------------------- message predicates

  ghost predicate SameView(m: MessageView, m': MessageView) {
    forall t :: EvalMessage(t, m) == EvalMessage(t, m')
  }

  ghost predicate SomeElement(m: MessageView, path: FieldPath, sub: FieldPath, value: FieldValue) {
    exists f | f in m.elements(path) :: f(sub, value)
  }

  /** The view agrees on every comparison, on every presence, and on whether some element of a
      repeated field compares equal. */
  ghost predicate Agree(m: MessageView, m': MessageView) {
    && (forall path, value :: m.fieldEquals(path, value) == m'.fieldEquals(path, value))
    && (forall path :: m.fieldPresent(path) == m'.fieldPresent(path))
    && (forall path, sub, value :: SomeElement(m, path, sub, value) == SomeElement(m', path, sub, value))
  }

  lemma ContainsIsSomeElement(m: MessageView, path: FieldPath, sub: FieldPath, value: FieldValue)
    ensures EvalMessage(FieldContains(Some(path), Some(sub), Some(value)), m) <==> SomeElement(m, path, sub, value)
  {
    var es := m.elements(path);
    if i :| 0 <= i < |es| && es[i](sub, value) { assert es[i] in es; }
  }

  lemma {:induction false} AgreeSame(t: MesTree, m: MessageView, m': MessageView)
    requires Agree(m, m')
    ensures EvalMessage(t, m) == EvalMessage(t, m')
    decreases t
  {
    match t
    case MesEquals(l, r) =>
      if l.Some? { AgreeSame(l.value, m, m'); }
      if r.Some? { AgreeSame(r.value, m, m'); }
    case MesAnd(l, r) =>
      if l.Some? { AgreeSame(l.value, m, m'); }
      if r.Some? { AgreeSame(r.value, m, m'); }
    case MesOr(l, r) =>
      if l.Some? { AgreeSame(l.value, m, m'); }
      if r.Some? { AgreeSame(r.value, m, m'); }
    case MesAllOf(ts) => forall u | u in ts { AgreeSame(u, m, m'); }
    case MesAnyOf(ts) => forall u | u in ts { AgreeSame(u, m, m'); }
    case FieldContains(Some(path), Some(sub), Some(value)) =>
      ContainsIsSomeElement(m, path, sub, value);
      ContainsIsSomeElement(m', path, sub, value);
    case _ =>
  }

  /** Two messages satisfy the same predicates if and only if they agree on every comparison, every
      presence and every search of a repeated field. */
  lemma SameViewIff(m: MessageView, m': MessageView)
    ensures SameView(m, m') <==> Agree(m, m')
  {
    if Agree(m, m') {
      forall t { AgreeSame(t, m, m'); }
    }
    if SameView(m, m') {
      forall path, value ensures m.fieldEquals(path, value) == m'.fieldEquals(path, value) {
        var t := FieldEquals(Some(path), Some(value));
        assert EvalMessage(t, m) == EvalMessage(t, m');
      }
      forall path ensures m.fieldPresent(path) == m'.fieldPresent(path) {
        var t := FieldExists(Some(path));
        assert EvalMessage(t, m) == EvalMessage(t, m');
      }
      forall path, sub, value ensures SomeElement(m, path, sub, value) == SomeElement(m', path, sub, value) {
        var t := FieldContains(Some(path), Some(sub), Some(value));
        assert EvalMessage(t, m) == EvalMessage(t, m');
        ContainsIsSomeElement(m, path, sub, value);
        ContainsIsSomeElement(m', path, sub, value);
      }
    }
  }

  /** Which observation each message leaf makes, and with which arguments: each holds of a message
      on which nothing but that observation succeeds. */
  lemma MessageLeafAsks(path: FieldPath, sub: FieldPath, value: FieldValue)
    ensures var only := MessageView((p, v) => p == path && v == value, _ => false, _ => []);
            && EvalMessage(FieldEquals(Some(path), Some(value)), only)
            && !EvalMessage(FieldExists(Some(path)), only)
            && !EvalMessage(FieldContains(Some(path), Some(sub), Some(value)), only)
    ensures var only := MessageView((_, _) => false, p => p == path, _ => []);
            && !EvalMessage(FieldEquals(Some(path), Some(value)), only)
            && EvalMessage(FieldExists(Some(path)), only)
            && !EvalMessage(FieldContains(Some(path), Some(sub), Some(value)), only)
    ensures var element := (p, v) => p == sub && v == value;
            var only := MessageView((_, _) => false, _ => false, p => if p == path then [element] else []);
            && !EvalMessage(FieldEquals(Some(path), Some(value)), only)
            && !EvalMessage(FieldExists(Some(path)), only)
            && EvalMessage(FieldContains(Some(path), Some(sub), Some(value)), only)
  {
    var element := (p, v) => p == sub && v == value;
    var only := MessageView((_, _) => false, _ => false, p => if p == path then [element] else []);
    assert only.elements(path)[0](sub, value);
  }

  /** A leaf with a part missing never holds. */
  lemma IncompleteLeafFails(path: Option<FieldPath>, sub: Option<FieldPath>, value: Option<FieldValue>, m: MessageView)
    ensures path.None? || value.None? ==> !EvalMessage(FieldEquals(path, value), m)
    ensures path.None? ==> !EvalMessage(FieldExists(path), m)
    ensures path.None? || sub.None? || value.None? ==> !EvalMessage(FieldContains(path, sub, value), m)
  {
  }

  // ---------------------------------------------------------------- connectives

  function EndNot(t: EndTree): EndTree { EndEquals(Some(t), Some(EndFalse)) }

  function MesNot(t: MesTree): MesTree { MesEquals(Some(t), Some(MesFalse)) }

  function Not(t: Tree): Tree { Equals(Some(t), Some(False)) }

  lemma Consed<T>(t: T, ts: seq<T>)
    ensures forall u :: u in [t] + ts <==> u == t || u in ts
  {
  }

  /** An endorsement predicate: EQ with FALSE negates and EQ with TRUE does nothing, ... */
  lemma EndorsementNegation(t: EndTree, e: Endorsement)
    ensures EvalEndorsement(EndNot(t), e) == !EvalEndorsement(t, e)
    ensures EvalEndorsement(EndEquals(Some(t), Some(EndTrue)), e) == EvalEndorsement(t, e)
  {
  }

  /** ... AND and OR are dual, ... */
  lemma EndorsementDuality(l: EndTree, r: EndTree, e: Endorsement)
    ensures EvalEndorsement(EndNot(EndAnd(Some(l), Some(r))), e)
         == EvalEndorsement(EndOr(Some(EndNot(l)), Some(EndNot(r))), e)
    ensures EvalEndorsement(EndNot(EndOr(Some(l), Some(r))), e)
         == EvalEndorsement(EndAnd(Some(EndNot(l)), Some(EndNot(r))), e)
  {
    EndorsementNegation(l, e);
    EndorsementNegation(r, e);
    EndorsementNegation(EndAnd(Some(l), Some(r)), e);
    EndorsementNegation(EndOr(Some(l), Some(r)), e);
  }

  /** ... they have their units and zeros, ... */
  lemma EndorsementUnits(t: EndTree, e: Endorsement)
    ensures EvalEndorsement(EndAnd(Some(t), Some(EndTrue)), e)
         == EvalEndorsement(EndAnd(Some(EndTrue), Some(t)), e)
         == EvalEndorsement(t, e)
    ensures EvalEndorsement(EndOr(Some(t), Some(EndFalse)), e)
         == EvalEndorsement(EndOr(Some(EndFalse), Some(t)), e)
         == EvalEndorsement(t, e)
    ensures !EvalEndorsement(EndAnd(Some(t), Some(EndFalse)), e)
    ensures !EvalEndorsement(EndAnd(Some(EndFalse), Some(t)), e)
    ensures EvalEndorsement(EndOr(Some(t), Some(EndTrue)), e) && EvalEndorsement(EndOr(Some(EndTrue), Some(t)), e)
    ensures EvalEndorsement(EndTrue, e) && !EvalEndorsement(EndFalse, e) && !EvalEndorsement(EndUnset, e)
  {
  }

  /** ... a node with a side missing never holds, ... */
  lemma EndorsementSides(side: Option<EndTree>, e: Endorsement)
    ensures !EvalEndorsement(EndEquals(None, side), e) && !EvalEndorsement(EndEquals(side, None), e)
    ensures !EvalEndorsement(EndAnd(None, side), e) && !EvalEndorsement(EndAnd(side, None), e)
    ensures !EvalEndorsement(EndOr(None, side), e) && !EvalEndorsement(EndOr(side, None), e)
  {
  }

  /** ... and ALLOF and ANYOF are AND and OR repeated; of no terms neither holds. */
  lemma EndorsementSingle(t: EndTree, e: Endorsement)
    ensures !EvalEndorsement(EndAllOf([]), e) && !EvalEndorsement(EndAnyOf([]), e)
    ensures EvalEndorsement(EndAllOf([t]), e) == EvalEndorsement(EndAnyOf([t]), e) == EvalEndorsement(t, e)
  {
    assert t in [t];
  }

  lemma EndorsementAllOf(t: EndTree, ts: seq<EndTree>, e: Endorsement)
    requires ts != []
    ensures EvalEndorsement(EndAllOf([t] + ts), e)
         == EvalEndorsement(EndAnd(Some(t), Some(EndAllOf(ts))), e)
  {
    Consed(t, ts);
  }

  lemma EndorsementAnyOf(t: EndTree, ts: seq<EndTree>, e: Endorsement)
    ensures EvalEndorsement(EndAnyOf([t] + ts), e)
         == EvalEndorsement(EndOr(Some(t), Some(EndAnyOf(ts))), e)
  {
    Consed(t, ts);
  }

  /** A message predicate: EQ with FALSE negates and EQ with TRUE does nothing, ... */
  lemma MessageNegation(t: MesTree, m: MessageView)
    ensures EvalMessage(MesNot(t), m) == !EvalMessage(t, m)
    ensures EvalMessage(MesEquals(Some(t), Some(MesTrue)), m) == EvalMessage(t, m)
  {
  }

  /** ... AND and OR are dual, ... */
  lemma MessageDuality(l: MesTree, r: MesTree, m: MessageView)
    ensures EvalMessage(MesNot(MesAnd(Some(l), Some(r))), m)
         == EvalMessage(MesOr(Some(MesNot(l)), Some(MesNot(r))), m)
    ensures EvalMessage(MesNot(MesOr(Some(l), Some(r))), m)
         == EvalMessage(MesAnd(Some(MesNot(l)), Some(MesNot(r))), m)
  {
    MessageNegation(l, m);
    MessageNegation(r, m);
    MessageNegation(MesAnd(Some(l), Some(r)), m);
    MessageNegation(MesOr(Some(l), Some(r)), m);
  }

  /** ... they have their units and zeros, ... */
  lemma MessageUnits(t: MesTree, m: MessageView)
    ensures EvalMessage(MesAnd(Some(t), Some(MesTrue)), m)
         == EvalMessage(MesAnd(Some(MesTrue), Some(t)), m)
         == EvalMessage(t, m)
    ensures EvalMessage(MesOr(Some(t), Some(MesFalse)), m)
         == EvalMessage(MesOr(Some(MesFalse), Some(t)), m)
         == EvalMessage(t, m)
    ensures !EvalMessage(MesAnd(Some(t), Some(MesFalse)), m)
    ensures !EvalMessage(MesAnd(Some(MesFalse), Some(t)), m)
    ensures EvalMessage(MesOr(Some(t), Some(MesTrue)), m) && EvalMessage(MesOr(Some(MesTrue), Some(t)), m)
    ensures EvalMessage(MesTrue, m) && !EvalMessage(MesFalse, m) && !EvalMessage(MesUnset, m)
  {
  }

  /** ... a node with a side missing never holds, ... */
  lemma MessageSides(side: Option<MesTree>, m: MessageView)
    ensures !EvalMessage(MesEquals(None, side), m) && !EvalMessage(MesEquals(side, None), m)
    ensures !EvalMessage(MesAnd(None, side), m) && !EvalMessage(MesAnd(side, None), m)
    ensures !EvalMessage(MesOr(None, side), m) && !EvalMessage(MesOr(side, None), m)
  {
  }

  /** ... and ALLOF and ANYOF are AND and OR repeated; of no terms neither holds. */
  lemma MessageSingle(t: MesTree, m: MessageView)
    ensures !EvalMessage(MesAllOf([]), m) && !EvalMessage(MesAnyOf([]), m)
    ensures EvalMessage(MesAllOf([t]), m) == EvalMessage(MesAnyOf([t]), m) == EvalMessage(t, m)
  {
    assert t in [t];
  }

  lemma MessageAllOf(t: MesTree, ts: seq<MesTree>, m: MessageView)
    requires ts != []
    ensures EvalMessage(MesAllOf([t] + ts), m)
         == EvalMessage(MesAnd(Some(t), Some(MesAllOf(ts))), m)
  {
    Consed(t, ts);
  }

  lemma MessageAnyOf(t: MesTree, ts: seq<MesTree>, m: MessageView)
    ensures EvalMessage(MesAnyOf([t] + ts), m)
         == EvalMessage(MesOr(Some(t), Some(MesAnyOf(ts))), m)
  {
    Consed(t, ts);
  }

  /** A requirement tried against one endorsement: EQ with FALSE negates and EQ with TRUE does nothing, ... */
  lemma RequirementNegation(t: Tree, e: Endorsement)
    ensures EvalRequirement(Not(t), e) == !EvalRequirement(t, e)
    ensures EvalRequirement(Equals(Some(t), Some(True)), e) == EvalRequirement(t, e)
  {
  }

  /** ... AND and OR are dual, ... */
  lemma RequirementDuality(l: Tree, r: Tree, e: Endorsement)
    ensures EvalRequirement(Not(And(Some(l), Some(r))), e) == EvalRequirement(Or(Some(Not(l)), Some(Not(r))), e)
    ensures EvalRequirement(Not(Or(Some(l), Some(r))), e) == EvalRequirement(And(Some(Not(l)), Some(Not(r))), e)
  {
    RequirementNegation(l, e);
    RequirementNegation(r, e);
    RequirementNegation(And(Some(l), Some(r)), e);
    RequirementNegation(Or(Some(l), Some(r)), e);
  }

  /** ... they have their units and zeros, ... */
  lemma RequirementUnits(t: Tree, e: Endorsement)
    ensures EvalRequirement(And(Some(t), Some(True)), e)
         == EvalRequirement(And(Some(True), Some(t)), e)
         == EvalRequirement(t, e)
    ensures EvalRequirement(Or(Some(t), Some(False)), e)
         == EvalRequirement(Or(Some(False), Some(t)), e)
         == EvalRequirement(t, e)
    ensures !EvalRequirement(And(Some(t), Some(False)), e)
    ensures !EvalRequirement(And(Some(False), Some(t)), e)
    ensures EvalRequirement(Or(Some(t), Some(True)), e) && EvalRequirement(Or(Some(True), Some(t)), e)
    ensures EvalRequirement(True, e) && !EvalRequirement(False, e) && !EvalRequirement(Unset, e)
  {
  }

  /** ... a node with a side missing never holds, ... */
  lemma RequirementSides(side: Option<Tree>, e: Endorsement)
    ensures !EvalRequirement(Equals(None, side), e) && !EvalRequirement(Equals(side, None), e)
    ensures !EvalRequirement(And(None, side), e) && !EvalRequirement(And(side, None), e)
    ensures !EvalRequirement(Or(None, side), e) && !EvalRequirement(Or(side, None), e)
  {
  }

  /** ... and ALLOF and ANYOF are AND and OR repeated; of no terms neither holds. */
  lemma RequirementSingle(t: Tree, e: Endorsement)
    ensures !EvalRequirement(AllOf([]), e) && !EvalRequirement(AnyOf([]), e)
    ensures EvalRequirement(AllOf([t]), e) == EvalRequirement(AnyOf([t]), e) == EvalRequirement(t, e)
  {
    assert t in [t];
  }

  lemma RequirementAllOf(t: Tree, ts: seq<Tree>, e: Endorsement)
    requires ts != []
    ensures EvalRequirement(AllOf([t] + ts), e)
         == EvalRequirement(And(Some(t), Some(AllOf(ts))), e)
  {
    Consed(t, ts);
  }

  lemma RequirementAnyOf(t: Tree, ts: seq<Tree>, e: Endorsement)
    ensures EvalRequirement(AnyOf([t] + ts), e)
         == EvalRequirement(Or(Some(t), Some(AnyOf(ts))), e)
  {
    Consed(t, ts);
  }

  /** A requirement tried against the message: EQ with FALSE negates and EQ with TRUE does nothing, ... */
  lemma MessageRequirementNegation(t: Tree, m: MessageView)
    ensures EvalMessageRequirement(Not(t), m) == !EvalMessageRequirement(t, m)
    ensures EvalMessageRequirement(Equals(Some(t), Some(True)), m) == EvalMessageRequirement(t, m)
  {
  }

  /** ... AND and OR are dual, ... */
  lemma MessageRequirementDuality(l: Tree, r: Tree, m: MessageView)
    ensures EvalMessageRequirement(Not(And(Some(l), Some(r))), m)
         == EvalMessageRequirement(Or(Some(Not(l)), Some(Not(r))), m)
    ensures EvalMessageRequirement(Not(Or(Some(l), Some(r))), m)
         == EvalMessageRequirement(And(Some(Not(l)), Some(Not(r))), m)
  {
    MessageRequirementNegation(l, m);
    MessageRequirementNegation(r, m);
    MessageRequirementNegation(And(Some(l), Some(r)), m);
    MessageRequirementNegation(Or(Some(l), Some(r)), m);
  }

  /** ... they have their units and zeros, ... */
  lemma MessageRequirementUnits(t: Tree, m: MessageView)
    ensures EvalMessageRequirement(And(Some(t), Some(True)), m)
         == EvalMessageRequirement(And(Some(True), Some(t)), m)
         == EvalMessageRequirement(t, m)
    ensures EvalMessageRequirement(Or(Some(t), Some(False)), m)
         == EvalMessageRequirement(Or(Some(False), Some(t)), m)
         == EvalMessageRequirement(t, m)
    ensures !EvalMessageRequirement(And(Some(t), Some(False)), m)
    ensures !EvalMessageRequirement(And(Some(False), Some(t)), m)
    ensures EvalMessageRequirement(Or(Some(t), Some(True)), m) && EvalMessageRequirement(Or(Some(True), Some(t)), m)
    ensures EvalMessageRequirement(True, m) && !EvalMessageRequirement(False, m) && !EvalMessageRequirement(Unset, m)
  {
  }

  /** ... a node with a side missing never holds, ... */
  lemma MessageRequirementSides(side: Option<Tree>, m: MessageView)
    ensures !EvalMessageRequirement(Equals(None, side), m) && !EvalMessageRequirement(Equals(side, None), m)
    ensures !EvalMessageRequirement(And(None, side), m) && !EvalMessageRequirement(And(side, None), m)
    ensures !EvalMessageRequirement(Or(None, side), m) && !EvalMessageRequirement(Or(side, None), m)
  {
  }

  /** ... and ALLOF and ANYOF are AND and OR repeated; of no terms neither holds. */
  lemma MessageRequirementSingle(t: Tree, m: MessageView)
    ensures !EvalMessageRequirement(AllOf([]), m) && !EvalMessageRequirement(AnyOf([]), m)
    ensures EvalMessageRequirement(AllOf([t]), m) == EvalMessageRequirement(AnyOf([t]), m)
         == EvalMessageRequirement(t, m)
  {
    assert t in [t];
  }

  lemma MessageRequirementAllOf(t: Tree, ts: seq<Tree>, m: MessageView)
    requires ts != []
    ensures EvalMessageRequirement(AllOf([t] + ts), m)
         == EvalMessageRequirement(And(Some(t), Some(AllOf(ts))), m)
  {
    Consed(t, ts);
  }

  lemma MessageRequirementAnyOf(t: Tree, ts: seq<Tree>, m: MessageView)
    ensures EvalMessageRequirement(AnyOf([t] + ts), m)
         == EvalMessageRequirement(Or(Some(t), Some(AnyOf(ts))), m)
  {
    Consed(t, ts);
  }

  // ---------------------------------------------------------------- requirements

  /** An endorsement predicate written with requirement connectives, its leaves one by one. */
  function Lifted(t: EndTree): Tree
  {
    match t
    case EndUnset => Unset
    case EndTrue => True
    case EndFalse => False
    case EndEquals(l, r) => Equals(LiftedSide(l), LiftedSide(r))
    case EndAnd(l, r) => And(LiftedSide(l), LiftedSide(r))
    case EndOr(l, r) => Or(LiftedSide(l), LiftedSide(r))
    case EndAllOf(ts) => AllOf(LiftedTerms(ts))
    case EndAnyOf(ts) => AnyOf(LiftedTerms(ts))
    case _ => EndorsementLeaf(Some(t))
  }

  function LiftedSide(t: Option<EndTree>): Option<Tree> {
    if t.Some? then Some(Lifted(t.value)) else None
  }

  function LiftedTerms(ts: seq<EndTree>): (r: seq<Tree>)
    ensures |r| == |ts|
  {
    if ts == [] then [] else [Lifted(ts[0])] + LiftedTerms(ts[1..])
  }

  /** ENDORSEMENT(...) distributes over the connectives: one endorsement meets a predicate exactly
      when it meets the requirement with the leaves taken apart. */
  lemma {:induction false} LiftedMeaning(t: EndTree, e: Endorsement)
    ensures EvalRequirement(Lifted(t), e) == EvalEndorsement(t, e)
    decreases t
  {
    match t
    case EndEquals(l, r) =>
      LiftedOne(l, e);
      LiftedOne(r, e);
    case EndAnd(l, r) =>
      LiftedOne(l, e);
      LiftedOne(r, e);
    case EndOr(l, r) =>
      LiftedOne(l, e);
      LiftedOne(r, e);
    case EndAllOf(ts) => LiftedTermsMeaning(ts, e);
    case EndAnyOf(ts) => LiftedTermsMeaning(ts, e);
    case _ =>
  }

  lemma {:induction false} LiftedOne(t: Option<EndTree>, e: Endorsement)
    ensures LiftedSide(t).Some? == t.Some?
    ensures t.Some? ==> EvalRequirement(LiftedSide(t).value, e) == EvalEndorsement(t.value, e)
    decreases t
  {
    if t.Some? { LiftedMeaning(t.value, e); }
  }

  lemma EndorsementLeafMeaning(t: EndTree, e: Endorsement)
    ensures EvalRequirement(EndorsementLeaf(Some(t)), e) == EvalEndorsement(t, e)
    ensures !EvalRequirement(EndorsementLeaf(None), e)
  {
  }

  lemma {:induction false} LiftedTermsMeaning(ts: seq<EndTree>, e: Endorsement)
    ensures (forall u | u in LiftedTerms(ts) :: EvalRequirement(u, e)) <==>
            forall t | t in ts :: EvalEndorsement(t, e)
    ensures (exists u | u in LiftedTerms(ts) :: EvalRequirement(u, e)) <==>
            exists t | t in ts :: EvalEndorsement(t, e)
    decreases ts
  {
    if ts != [] {
      LiftedMeaning(ts[0], e);
      LiftedTermsMeaning(ts[1..], e);
      assert ts == [ts[0]] + ts[1..];
    }
  }

  /** t with every message leaf made FALSE, and with every endorsement leaf made FALSE. */
  function Without(t: Tree, messages: bool): Tree
    decreases t, 0
  {
    match t
    case Equals(l, r) => Equals(WithoutSide(l, messages), WithoutSide(r, messages))
    case And(l, r) => And(WithoutSide(l, messages), WithoutSide(r, messages))
    case Or(l, r) => Or(WithoutSide(l, messages), WithoutSide(r, messages))
    case AllOf(ts) => AllOf(WithoutTerms(ts, messages))
    case AnyOf(ts) => AnyOf(WithoutTerms(ts, messages))
    case MessageLeaf(_) => if messages then False else t
    case EndorsementLeaf(_) => if messages then t else False
    case _ => t
  }

  function WithoutSide(t: Option<Tree>, messages: bool): Option<Tree>
    decreases t, 1
  {
    if t.Some? then Some(Without(t.value, messages)) else None
  }

  function WithoutTerms(ts: seq<Tree>, messages: bool): (r: seq<Tree>)
    ensures |r| == |ts|
    decreases ts, 1
  {
    if ts == [] then [] else [Without(ts[0], messages)] + WithoutTerms(ts[1..], messages)
  }

  /** An endorsement is tried as if every message leaf were FALSE. */
  lemma {:induction false} MessageLeavesFalse(t: Tree, e: Endorsement)
    ensures EvalRequirement(Without(t, true), e) == EvalRequirement(t, e)
    decreases t, 0
  {
    match t
    case Equals(l, r) =>
      if l.Some? { MessageLeavesFalse(l.value, e); }
      if r.Some? { MessageLeavesFalse(r.value, e); }
    case And(l, r) =>
      if l.Some? { MessageLeavesFalse(l.value, e); }
      if r.Some? { MessageLeavesFalse(r.value, e); }
    case Or(l, r) =>
      if l.Some? { MessageLeavesFalse(l.value, e); }
      if r.Some? { MessageLeavesFalse(r.value, e); }
    case AllOf(ts) => MessageLeavesFalseIn(ts, e);
    case AnyOf(ts) => MessageLeavesFalseIn(ts, e);
    case _ =>
  }

  lemma {:induction false} MessageLeavesFalseIn(ts: seq<Tree>, e: Endorsement)
    ensures (forall u | u in WithoutTerms(ts, true) :: EvalRequirement(u, e)) <==>
            forall t | t in ts :: EvalRequirement(t, e)
    ensures (exists u | u in WithoutTerms(ts, true) :: EvalRequirement(u, e)) <==>
            exists t | t in ts :: EvalRequirement(t, e)
    decreases ts, 1
  {
    if ts != [] {
      MessageLeavesFalse(ts[0], e);
      MessageLeavesFalseIn(ts[1..], e);
      assert ts == [ts[0]] + ts[1..];
    }
  }

  /** The message is tried as if every endorsement leaf were FALSE. */
  lemma {:induction false} EndorsementLeavesFalse(t: Tree, m: MessageView)
    ensures EvalMessageRequirement(Without(t, false), m) == EvalMessageRequirement(t, m)
    decreases t, 0
  {
    match t
    case Equals(l, r) =>
      if l.Some? { EndorsementLeavesFalse(l.value, m); }
      if r.Some? { EndorsementLeavesFalse(r.value, m); }
    case And(l, r) =>
      if l.Some? { EndorsementLeavesFalse(l.value, m); }
      if r.Some? { EndorsementLeavesFalse(r.value, m); }
    case Or(l, r) =>
      if l.Some? { EndorsementLeavesFalse(l.value, m); }
      if r.Some? { EndorsementLeavesFalse(r.value, m); }
    case AllOf(ts) => EndorsementLeavesFalseIn(ts, m);
    case AnyOf(ts) => EndorsementLeavesFalseIn(ts, m);
    case _ =>
  }

  lemma {:induction false} EndorsementLeavesFalseIn(ts: seq<Tree>, m: MessageView)
    ensures (forall u | u in WithoutTerms(ts, false) :: EvalMessageRequirement(u, m)) <==>
            forall t | t in ts :: EvalMessageRequirement(t, m)
    ensures (exists u | u in WithoutTerms(ts, false) :: EvalMessageRequirement(u, m)) <==>
            exists t | t in ts :: EvalMessageRequirement(t, m)
    decreases ts, 1
  {
    if ts != [] {
      EndorsementLeavesFalse(ts[0], m);
      EndorsementLeavesFalseIn(ts[1..], m);
      assert ts == [ts[0]] + ts[1..];
    }
  }

  /** MESSAGE(...) holds of the message exactly when its predicate does. */
  lemma MessageLeafMeaning(t: MesTree, m: MessageView)
    ensures EvalMessageRequirement(MessageLeaf(Some(t)), m) == EvalMessage(t, m)
    ensures !EvalMessageRequirement(MessageLeaf(None), m)
  {
  }
}
