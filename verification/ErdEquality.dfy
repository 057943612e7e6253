/** Requirement-level EQ (common/endorsement/endorsement.cpp). The reducer tries an EQ node against
    one endorsement at a time, with message leaves read as false, so it does not always decide
    what the node says. What it decides is described here for every tree, and exactly when that
    is right. */
module ErdEquality {
  import opened Common
  import opened ErdTree
  import opened ErdReduce

  // ---------------------------------------------------------------- what the reducer decides

  /** The reducer grants t: t folds to true, or one endorsement matches all of it, or its parts
      are granted; an EQ is granted when both sides are granted or both are refused. */
  predicate Granted(t: Tree, es: seq<Endorsement>, m: Option<MessageView>)
    decreases t, 1
  {
    if ConstantValue(t) != Unknown then ConstantValue(t) == KnownTrue
    else AnyMatches(t, es) || PartsGrant(t, es, m)
  }

  predicate PartsGrant(t: Tree, es: seq<Endorsement>, m: Option<MessageView>)
    decreases t, 0
  {
    match t
    case Unset => true
    case Equals(Some(l), Some(r)) =>
      (Granted(l, es, m) && Granted(r, es, m)) || (Refused(l, es, m) && Refused(r, es, m))
    case And(Some(l), Some(r)) => Granted(l, es, m) && Granted(r, es, m)
    case Or(Some(l), Some(r)) => Granted(l, es, m) || Granted(r, es, m)
    case AllOf(ts) => ts != [] && forall u | u in ts :: Granted(u, es, m)
    case AnyOf(ts) => exists u | u in ts :: Granted(u, es, m)
    case MessageLeaf(_) => m.Some? && EvalMessageRequirement(t, m.value)
    case _ => false
  }

  /** The reducer refuses t for good: t folds to false, or its parts leave no way to meet it. */
  predicate Refused(t: Tree, es: seq<Endorsement>, m: Option<MessageView>)
    decreases t, 1
  {
    if ConstantValue(t) != Unknown then ConstantValue(t) == KnownFalse
    else !AnyMatches(t, es) && PartsRefuse(t, es, m)
  }

  predicate PartsRefuse(t: Tree, es: seq<Endorsement>, m: Option<MessageView>)
    decreases t, 0
  {
    match t
    case Equals(Some(l), Some(r)) =>
      (Granted(l, es, m) && Refused(r, es, m)) || (Refused(l, es, m) && Granted(r, es, m))
    case And(Some(l), Some(r)) => Refused(l, es, m) || Refused(r, es, m)
    case Or(Some(l), Some(r)) => Refused(l, es, m) && Refused(r, es, m)
    case AllOf(ts) => exists u | u in ts :: Refused(u, es, m)
    case AnyOf(ts) => ts != [] && forall u | u in ts :: Refused(u, es, m)
    case MessageLeaf(_) => m.Some? && !EvalMessageRequirement(t, m.value)
    case _ => false
  }

  /** When two combined sides are settled. */
  lemma PairVerdict(l: Tree, r: Tree)
    ensures CombineAnd(l, r) == Unset <==> l == Unset && r == Unset
    ensures CombineAnd(l, r) == False <==> l == False || r == False
    ensures CombineOr(l, r) == Unset <==> l == Unset || r == Unset
    ensures CombineOr(l, r) == False <==> l == False && r == False
    ensures CombineEquals(l, r) == Unset <==> (l == Unset && r == Unset) || (l == False && r == False)
    ensures CombineEquals(l, r) == False <==> (l == Unset && r == False) || (l == False && r == Unset)
  {
  }

  /** On every tree, EQ and malformed nodes included: reduction yields the unset tree exactly
      where t is granted, and the false tree exactly where it is refused. */
  lemma {:induction false} ReduceVerdict(t: Tree, es: seq<Endorsement>, m: Option<MessageView>)
    ensures Reduce(t, es, m) == Unset <==> Granted(t, es, m)
    ensures Reduce(t, es, m) == False <==> Refused(t, es, m)
    decreases t, 1
  {
    if ConstantValue(t) == Unknown && !AnyMatches(t, es) {
      match t
      case Equals(Some(l), Some(r)) => SidesVerdict(l, r, t, es, m);
      case And(Some(l), Some(r)) => SidesVerdict(l, r, t, es, m);
      case Or(Some(l), Some(r)) => SidesVerdict(l, r, t, es, m);
      case AllOf(ts) => TermsVerdict(ts, es, m);
      case AnyOf(ts) => TermsVerdict(ts, es, m);
      case _ =>
    }
  }

  lemma {:induction false} SidesVerdict(l: Tree, r: Tree, t: Tree, es: seq<Endorsement>, m: Option<MessageView>)
    requires t == Equals(Some(l), Some(r)) || t == And(Some(l), Some(r)) || t == Or(Some(l), Some(r))
    ensures var l', r' := Reduce(l, es, m), Reduce(r, es, m);
            && (t.Equals? ==> (CombineEquals(l', r') == Unset <==> PartsGrant(t, es, m))
                              && (CombineEquals(l', r') == False <==> PartsRefuse(t, es, m)))
            && (t.And? ==> (CombineAnd(l', r') == Unset <==> PartsGrant(t, es, m))
                           && (CombineAnd(l', r') == False <==> PartsRefuse(t, es, m)))
            && (t.Or? ==> (CombineOr(l', r') == Unset <==> PartsGrant(t, es, m))
                          && (CombineOr(l', r') == False <==> PartsRefuse(t, es, m)))
    decreases t, 0
  {
    ReduceVerdict(l, es, m);
    ReduceVerdict(r, es, m);
    PairVerdict(Reduce(l, es, m), Reduce(r, es, m));
  }

  lemma {:induction false} TermsVerdict(ts: seq<Tree>, es: seq<Endorsement>, m: Option<MessageView>)
    ensures var rs := ReduceEach(ts, es, m);
            && (CombineAllOf(rs) == Unset <==> forall u | u in ts :: Granted(u, es, m))
            && (CombineAllOf(rs) == False <==> exists u | u in ts :: Refused(u, es, m))
            && (CombineAnyOf(rs) == Unset <==> exists u | u in ts :: Granted(u, es, m))
            && (CombineAnyOf(rs) == False <==> forall u | u in ts :: Refused(u, es, m))
    decreases ts, 0
  {
    var rs := ReduceEach(ts, es, m);
    forall i | 0 <= i < |ts|
      ensures (rs[i] == Unset <==> Granted(ts[i], es, m)) && (rs[i] == False <==> Refused(ts[i], es, m))
    {
      ReduceEachAt(ts, es, m, i);
      ReduceVerdict(ts[i], es, m);
    }
    CombineVerdict(rs);
    EachIs(ts, rs, es, m);
  }

  /** When the combined residual is settled. */
  lemma CombineVerdict(rs: seq<Tree>)
    ensures CombineAllOf(rs) == Unset <==> forall r | r in rs :: r == Unset
    ensures CombineAllOf(rs) == False <==> False in rs
    ensures CombineAnyOf(rs) == Unset <==> Unset in rs
    ensures CombineAnyOf(rs) == False <==> forall r | r in rs :: r == False
  {
    var all, any := Without(rs, Unset), Without(rs, False);
    if all != [] { assert all[0] in all; }
    if any != [] { assert any[0] in any; }
  }

  lemma EachIs(ts: seq<Tree>, rs: seq<Tree>, es: seq<Endorsement>, m: Option<MessageView>)
    requires |ts| == |rs|
    requires forall i | 0 <= i < |ts| ::
               (rs[i] == Unset <==> Granted(ts[i], es, m)) && (rs[i] == False <==> Refused(ts[i], es, m))
    ensures (forall r | r in rs :: r == Unset) <==> forall u | u in ts :: Granted(u, es, m)
    ensures (forall r | r in rs :: r == False) <==> forall u | u in ts :: Refused(u, es, m)
    ensures Unset in rs <==> exists u | u in ts :: Granted(u, es, m)
    ensures False in rs <==> exists u | u in ts :: Refused(u, es, m)
  {
    PointWise(rs, ts, r => r == Unset, u => Granted(u, es, m));
    PointWise(rs, ts, r => r == False, u => Refused(u, es, m));
  }

  /** Predicates that agree position by position agree on "all" and on "any". */
  lemma PointWise(rs: seq<Tree>, ts: seq<Tree>, p: Tree -> bool, q: Tree -> bool)
    requires |rs| == |ts| && forall i | 0 <= i < |ts| :: p(rs[i]) == q(ts[i])
    ensures (forall r | r in rs :: p(r)) <==> forall u | u in ts :: q(u)
    ensures (exists r | r in rs :: p(r)) <==> exists u | u in ts :: q(u)
  {
    assert forall i | 0 <= i < |ts| :: ts[i] in ts && rs[i] in rs;
  }

  // ---------------------------------------------------------------- when it is right

  /** EQ is tried against one endorsement at a time with message leaves read as false, so an
      unrelated endorsement makes EQ(MESSAGE(TRUE), ENDORSEMENT(FALSE)) hold. */
  lemma EqNotExact(e: Endorsement, m: MessageView)
    ensures var t := Equals(Some(MessageLeaf(Some(MesTrue))), Some(EndorsementLeaf(Some(EndFalse))));
            Reduce(t, [e], Some(m)) == Unset && !Sat(t, [e], Some(m))
  {
    var t := Equals(Some(MessageLeaf(Some(MesTrue))), Some(EndorsementLeaf(Some(EndFalse))));
    assert EvalRequirement(t, e) && e in [e];
  }

  /** When an unfolded EQ of l and r is decided correctly: with endorsements at hand, the sides
      agree or each endorsement matches one of them; with none, one side is met or both are
      refused for good. */
  predicate EqNodeDecided(l: Tree, r: Tree, es: seq<Endorsement>, m: Option<MessageView>) {
    if es == [] then
      Sat(l, es, m) || Sat(r, es, m) || (Refused(l, es, m) && Refused(r, es, m))
    else
      Sat(l, es, m) == Sat(r, es, m) || forall e | e in es :: EvalRequirement(l, e) || EvalRequirement(r, e)
  }

  lemma MatchesImplySat(t: Tree, es: seq<Endorsement>, m: Option<MessageView>)
    requires EqFolds(t)
    ensures (exists e | e in es :: EvalRequirement(t, e)) ==> Sat(t, es, m)
  {
    forall e | e in es && EvalRequirement(t, e)
      ensures Sat(t, es, m)
    {
      MatchSatisfies(t, e, es, m);
    }
  }

  lemma EqGranted(l: Tree, r: Tree, es: seq<Endorsement>, m: Option<MessageView>)
    requires ConstantValue(Equals(Some(l), Some(r))) == Unknown
    ensures Granted(Equals(Some(l), Some(r)), es, m)
       <==> || (exists e | e in es :: EvalRequirement(l, e) == EvalRequirement(r, e))
            || (Granted(l, es, m) && Granted(r, es, m)) || (Refused(l, es, m) && Refused(r, es, m))
  {
    var t := Equals(Some(l), Some(r));
    assert forall e :: EvalRequirement(t, e) == (EvalRequirement(l, e) == EvalRequirement(r, e));
  }

  /** An unfolded EQ over sides whose own EQs fold is decided correctly if and only if its node
      condition holds. */
  lemma EqExactIff(l: Tree, r: Tree, es: seq<Endorsement>, m: Option<MessageView>)
    requires EqFolds(l) && EqFolds(r)
    requires ConstantValue(Equals(Some(l), Some(r))) == Unknown
    ensures (Granted(Equals(Some(l), Some(r)), es, m) <==> Sat(Equals(Some(l), Some(r)), es, m))
            <==> EqNodeDecided(l, r, es, m)
    ensures (Reduce(Equals(Some(l), Some(r)), es, m) == Unset <==> Sat(Equals(Some(l), Some(r)), es, m))
            <==> EqNodeDecided(l, r, es, m)
  {
    ReduceVerdict(Equals(Some(l), Some(r)), es, m);
    GrantedIsSat(l, es, m);
    GrantedIsSat(r, es, m);
    MatchesImplySat(l, es, m);
    MatchesImplySat(r, es, m);
    EqGranted(l, r, es, m);
    if es != [] { assert es[0] in es; }
  }

  lemma GrantedIsSat(t: Tree, es: seq<Endorsement>, m: Option<MessageView>)
    requires EqFolds(t)
    ensures Granted(t, es, m) <==> Sat(t, es, m)
    ensures Refused(t, es, m) ==> !Sat(t, es, m)
  {
    ReduceVerdict(t, es, m);
    ReduceExact(t, es, m);
  }

  // ---------------------------------------------------------------- all trees

  /** When an unfolded EQ of any l and r is decided correctly: if the sides agree, one endorsement
      makes them agree or the reducer settles both alike; if not, neither happens. */
  predicate EqNodeExact(l: Tree, r: Tree, es: seq<Endorsement>, m: Option<MessageView>) {
    var alike := (Granted(l, es, m) && Granted(r, es, m)) || (Refused(l, es, m) && Refused(r, es, m));
    if Sat(l, es, m) == Sat(r, es, m) then
      alike || exists e | e in es :: EvalRequirement(l, e) == EvalRequirement(r, e)
    else
      !alike && forall e | e in es :: EvalRequirement(l, e) != EvalRequirement(r, e)
  }

  /** Where the EQ nodes of t leave its verdict right: each is decided correctly, except that a
      part rightly unmet decides a conjunction by itself, and a part rightly met a disjunction;
      and in either, a part may be wrong that makes up for another. */
  predicate EqExact(t: Tree, es: seq<Endorsement>, m: Option<MessageView>)
    decreases t
  {
    match t
    case Equals(Some(l), Some(r)) => ConstantValue(t) != Unknown || EqNodeExact(l, r, es, m)
    case And(Some(l), Some(r)) =>
      if Sat(l, es, m) && Sat(r, es, m) then EqExact(l, es, m) && EqExact(r, es, m)
      else Sat(l, es, m) != EqExact(l, es, m) || Sat(r, es, m) != EqExact(r, es, m)
    case Or(Some(l), Some(r)) =>
      if Sat(l, es, m) || Sat(r, es, m)
      then Sat(l, es, m) == EqExact(l, es, m) || Sat(r, es, m) == EqExact(r, es, m)
      else EqExact(l, es, m) && EqExact(r, es, m)
    case AllOf(ts) =>
      if forall u | u in ts :: Sat(u, es, m) then forall u | u in ts :: EqExact(u, es, m)
      else exists u | u in ts :: Sat(u, es, m) != EqExact(u, es, m)
    case AnyOf(ts) =>
      if exists u | u in ts :: Sat(u, es, m) then exists u | u in ts :: Sat(u, es, m) == EqExact(u, es, m)
      else forall u | u in ts :: EqExact(u, es, m)
    case _ => true
  }

  /** A tree that one endorsement matches is granted. */
  lemma MatchGrants(t: Tree, e: Endorsement, es: seq<Endorsement>, m: Option<MessageView>)
    requires e in es && EvalRequirement(t, e)
    ensures Granted(t, es, m)
  {
    if ConstantValue(t) != Unknown {
      ConstantFoldingSound(t, e, MessageView((_, _) => false, _ => false, _ => []));
    }
  }

  lemma MatchesGrant(t: Tree, es: seq<Endorsement>, m: Option<MessageView>)
    ensures AnyMatches(t, es) ==> Granted(t, es, m)
  {
    if AnyMatches(t, es) {
      var e :| e in es && EvalRequirement(t, e);
      MatchGrants(t, e, es, m);
    }
  }

  /** Neither folding nor a match of the whole adds anything to what the parts grant, except
      at EQ nodes and at endorsement leaves. */
  lemma GrantedComposes(t: Tree, es: seq<Endorsement>, m: Option<MessageView>)
    ensures t.And? || t.Or? ==> (Granted(t, es, m) <==> PartsGrant(t, es, m))
  {
    match t
    case And(Some(l), Some(r)) =>
      MatchesGrant(l, es, m);
      MatchesGrant(r, es, m);
    case Or(Some(l), Some(r)) =>
      MatchesGrant(l, es, m);
      MatchesGrant(r, es, m);
    case _ =>
  }

  lemma GrantedTerms(t: Tree, es: seq<Endorsement>, m: Option<MessageView>)
    requires t.AllOf? || t.AnyOf?
    ensures Granted(t, es, m) <==> PartsGrant(t, es, m)
  {
    forall u | u in t.terms { MatchesGrant(u, es, m); }
    if t.terms != [] { assert t.terms[0] in t.terms; }
  }

  predicate Right(t: Tree, es: seq<Endorsement>, m: Option<MessageView>) {
    Granted(t, es, m) <==> Sat(t, es, m)
  }

  predicate RightIff(t: Tree, es: seq<Endorsement>, m: Option<MessageView>) {
    Right(t, es, m) <==> EqExact(t, es, m)
  }

  lemma {:induction false} TreeRight(t: Tree, es: seq<Endorsement>, m: Option<MessageView>)
    ensures RightIff(t, es, m)
    decreases t
  {
    match t
    case Equals(Some(l), Some(r)) =>
      if ConstantValue(t) != Unknown { ConstantMeaning(t, es, m); } else { EqRight(l, r, es, m); }
    case And(Some(l), Some(r)) =>
      TreeRight(l, es, m);
      TreeRight(r, es, m);
      AndRight(l, r, es, m);
    case Or(Some(l), Some(r)) =>
      TreeRight(l, es, m);
      TreeRight(r, es, m);
      OrRight(l, r, es, m);
    case AllOf(ts) =>
      forall u | u in ts { TreeRight(u, es, m); }
      AllOfRight(ts, es, m);
    case AnyOf(ts) =>
      forall u | u in ts { TreeRight(u, es, m); }
      AnyOfRight(ts, es, m);
    case _ => LeafRight(t, es, m);
  }

  lemma EqRight(l: Tree, r: Tree, es: seq<Endorsement>, m: Option<MessageView>)
    requires ConstantValue(Equals(Some(l), Some(r))) == Unknown
    ensures Right(Equals(Some(l), Some(r)), es, m) <==> EqNodeExact(l, r, es, m)
  {
    EqGranted(l, r, es, m);
  }

  lemma AndRight(l: Tree, r: Tree, es: seq<Endorsement>, m: Option<MessageView>)
    requires RightIff(l, es, m) && RightIff(r, es, m)
    ensures RightIff(And(Some(l), Some(r)), es, m)
  {
    GrantedComposes(And(Some(l), Some(r)), es, m);
  }

  lemma OrRight(l: Tree, r: Tree, es: seq<Endorsement>, m: Option<MessageView>)
    requires RightIff(l, es, m) && RightIff(r, es, m)
    ensures RightIff(Or(Some(l), Some(r)), es, m)
  {
    GrantedComposes(Or(Some(l), Some(r)), es, m);
  }

  lemma AllOfRight(ts: seq<Tree>, es: seq<Endorsement>, m: Option<MessageView>)
    requires forall u | u in ts :: RightIff(u, es, m)
    ensures RightIff(AllOf(ts), es, m)
  {
    GrantedTerms(AllOf(ts), es, m);
    AllRight(ts, es, m);
  }

  lemma AnyOfRight(ts: seq<Tree>, es: seq<Endorsement>, m: Option<MessageView>)
    requires forall u | u in ts :: RightIff(u, es, m)
    ensures RightIff(AnyOf(ts), es, m)
  {
    GrantedTerms(AnyOf(ts), es, m);
    AnyRight(ts, es, m);
  }

  /** Leaves and malformed nodes. */
  lemma LeafRight(t: Tree, es: seq<Endorsement>, m: Option<MessageView>)
    requires !t.AllOf? && !t.AnyOf? && (t.Equals? || t.And? || t.Or? ==> t.lhs.None? || t.rhs.None?)
    ensures Right(t, es, m)
  {
    if !t.Equals? && !t.And? && !t.Or? { GrantedIsSat(t, es, m); }
  }

  lemma AllRight(ts: seq<Tree>, es: seq<Endorsement>, m: Option<MessageView>)
    requires forall u | u in ts :: RightIff(u, es, m)
    ensures var granted, met := (forall u | u in ts :: Granted(u, es, m)), (forall u | u in ts :: Sat(u, es, m));
            (granted <==> met) <==>
            if met then forall u | u in ts :: EqExact(u, es, m)
            else exists u | u in ts :: Sat(u, es, m) != EqExact(u, es, m)
  {
  }

  lemma AnyRight(ts: seq<Tree>, es: seq<Endorsement>, m: Option<MessageView>)
    requires forall u | u in ts :: RightIff(u, es, m)
    ensures var granted, met := (exists u | u in ts :: Granted(u, es, m)), (exists u | u in ts :: Sat(u, es, m));
            (granted <==> met) <==>
            if met then exists u | u in ts :: Sat(u, es, m) == EqExact(u, es, m)
            else forall u | u in ts :: EqExact(u, es, m)
  {
  }

  /** On every tree, EQ nodes anywhere, one below another or not: the reducer is exact if and only
      if its EQ nodes leave the verdict right. */
  lemma TreeExactIff(t: Tree, es: seq<Endorsement>, m: Option<MessageView>)
    ensures (Reduce(t, es, m) == Unset <==> Sat(t, es, m)) <==> EqExact(t, es, m)
  {
    ReduceVerdict(t, es, m);
    TreeRight(t, es, m);
  }

  // ---------------------------------------------------------------- which way it errs

  /** The sides of every unfolded EQ node hold only EQs that fold. */
  predicate EqShallow(t: Tree) {
    match t
    case Equals(Some(l), Some(r)) => ConstantValue(t) != Unknown || (EqFolds(l) && EqFolds(r))
    case And(l, r) => (l.Some? ==> EqShallow(l.value)) && (r.Some? ==> EqShallow(r.value))
    case Or(l, r) => (l.Some? ==> EqShallow(l.value)) && (r.Some? ==> EqShallow(r.value))
    case AllOf(ts) => forall u | u in ts :: EqShallow(u)
    case AnyOf(ts) => forall u | u in ts :: EqShallow(u)
    case _ => true
  }

  lemma {:induction false} MetIsGranted(t: Tree, es: seq<Endorsement>, m: Option<MessageView>)
    requires EqShallow(t) && es != []
    ensures Sat(t, es, m) ==> Granted(t, es, m)
    decreases t
  {
    match t
    case Equals(Some(l), Some(r)) =>
      if ConstantValue(t) != Unknown { ConstantMeaning(t, es, m); } else { EqMetIsGranted(l, r, es, m); }
    case And(Some(l), Some(r)) =>
      MetIsGranted(l, es, m);
      MetIsGranted(r, es, m);
      GrantedComposes(t, es, m);
    case Or(Some(l), Some(r)) =>
      MetIsGranted(l, es, m);
      MetIsGranted(r, es, m);
      GrantedComposes(t, es, m);
    case AllOf(ts) =>
      forall u | u in ts { MetIsGranted(u, es, m); }
      GrantedTerms(t, es, m);
    case AnyOf(ts) =>
      forall u | u in ts { MetIsGranted(u, es, m); }
      GrantedTerms(t, es, m);
    case _ => LeafRight(t, es, m);
  }

  lemma EqMetIsGranted(l: Tree, r: Tree, es: seq<Endorsement>, m: Option<MessageView>)
    requires EqFolds(l) && EqFolds(r) && es != [] && ConstantValue(Equals(Some(l), Some(r))) == Unknown
    ensures Sat(l, es, m) == Sat(r, es, m) ==> Granted(Equals(Some(l), Some(r)), es, m)
  {
    GrantedIsSat(l, es, m);
    GrantedIsSat(r, es, m);
    MatchesImplySat(l, es, m);
    MatchesImplySat(r, es, m);
    EqGranted(l, r, es, m);
    assert es[0] in es;
  }

  lemma LeafMet(t: Tree, es: seq<Endorsement>, m: Option<MessageView>)
    requires !t.AllOf? && !t.AnyOf? && (t.Equals? || t.And? || t.Or? ==> t.lhs.None? || t.rhs.None?)
    ensures Refused(t, es, m) ==> !Sat(t, es, m)
  {
    if !t.Equals? && !t.And? && !t.Or? { GrantedIsSat(t, es, m); }
  }

  /** Without endorsements the verdict on any tree is sound both ways. */
  lemma {:induction false} GrantedIsMet(t: Tree, es: seq<Endorsement>, m: Option<MessageView>)
    requires es == []
    ensures Granted(t, es, m) ==> Sat(t, es, m)
    ensures Refused(t, es, m) ==> !Sat(t, es, m)
    decreases t
  {
    if ConstantValue(t) != Unknown {
      ConstantMeaning(t, es, m);
    } else {
      assert !AnyMatches(t, es);
      assert Granted(t, es, m) == PartsGrant(t, es, m) && Refused(t, es, m) == PartsRefuse(t, es, m);
      match t
      case Equals(Some(l), Some(r)) =>
        GrantedIsMet(l, es, m);
        GrantedIsMet(r, es, m);
      case And(Some(l), Some(r)) =>
        GrantedIsMet(l, es, m);
        GrantedIsMet(r, es, m);
      case Or(Some(l), Some(r)) =>
        GrantedIsMet(l, es, m);
        GrantedIsMet(r, es, m);
      case AllOf(ts) => forall u | u in ts { GrantedIsMet(u, es, m); }
      case AnyOf(ts) => forall u | u in ts { GrantedIsMet(u, es, m); }
      case _ =>
        LeafRight(t, es, m);
        LeafMet(t, es, m);
    }
  }

  /** Without endorsements the reducer grants nothing unmet, on every tree. With endorsements at
      hand it withholds nothing that is met, as long as no unfolded EQ stands below another. */
  lemma ErrsOneWay(t: Tree, es: seq<Endorsement>, m: Option<MessageView>)
    ensures es == [] && Reduce(t, es, m) == Unset ==> Sat(t, es, m)
    ensures es != [] && EqShallow(t) && Sat(t, es, m) ==> Reduce(t, es, m) == Unset
  {
    ReduceVerdict(t, es, m);
    if es == [] {
      GrantedIsMet(t, es, m);
    } else if EqShallow(t) {
      MetIsGranted(t, es, m);
    }
  }

  /** That no unfolded EQ stands below another is needed: an inner EQ that is wrongly matched hides
      that the sides of the outer one agree. */
  lemma NestedEqWithholds(e: Endorsement, m: MessageView)
    ensures var inner := Equals(Some(MessageLeaf(Some(MesTrue))), Some(EndorsementLeaf(Some(EndFalse))));
            var outer := Equals(Some(inner), Some(EndorsementLeaf(Some(ValueEquals(e.value + [0])))));
            Sat(outer, [e], Some(m)) && Reduce(outer, [e], Some(m)) != Unset
  {
    var inner := Equals(Some(MessageLeaf(Some(MesTrue))), Some(EndorsementLeaf(Some(EndFalse))));
    var leaf := EndorsementLeaf(Some(ValueEquals(e.value + [0])));
    EqNotExact(e, m);
    LeafUndecided(e.value + [0], e, [e], m);
    assert EvalRequirement(inner, e);
    EqWithheld(inner, leaf, [e], Some(m));
  }

  lemma LeafUndecided(value: Bytes, e: Endorsement, es: seq<Endorsement>, m: MessageView)
    requires e.value != value && es == [e]
    ensures var leaf := EndorsementLeaf(Some(ValueEquals(value)));
            && !EvalRequirement(leaf, e) && !Sat(leaf, es, Some(m)) && ConstantValue(leaf) == Unknown
            && !Granted(leaf, es, Some(m)) && !Refused(leaf, es, Some(m))
  {
  }

  lemma EqWithheld(l: Tree, r: Tree, es: seq<Endorsement>, m: Option<MessageView>)
    requires ConstantValue(Equals(Some(l), Some(r))) == Unknown && !Granted(r, es, m) && !Refused(r, es, m)
    requires forall e | e in es :: EvalRequirement(l, e) != EvalRequirement(r, e)
    ensures Reduce(Equals(Some(l), Some(r)), es, m) != Unset
  {
    ReduceVerdict(Equals(Some(l), Some(r)), es, m);
    EqGranted(l, r, es, m);
  }

  // ---------------------------------------------------------------- every node by itself

  /** Every EQ node anywhere in t folds or meets its node condition. */
  predicate EqDecided(t: Tree, es: seq<Endorsement>, m: Option<MessageView>)
    decreases t
  {
    match t
    case Equals(Some(l), Some(r)) => ConstantValue(t) != Unknown || EqNodeExact(l, r, es, m)
    case And(l, r) => (l.Some? ==> EqDecided(l.value, es, m)) && (r.Some? ==> EqDecided(r.value, es, m))
    case Or(l, r) => (l.Some? ==> EqDecided(l.value, es, m)) && (r.Some? ==> EqDecided(r.value, es, m))
    case AllOf(ts) => forall u | u in ts :: EqDecided(u, es, m)
    case AnyOf(ts) => forall u | u in ts :: EqDecided(u, es, m)
    case _ => true
  }

  lemma {:induction false} DecidedIsExact(t: Tree, es: seq<Endorsement>, m: Option<MessageView>)
    requires EqDecided(t, es, m)
    ensures EqExact(t, es, m)
    decreases t
  {
    match t
    case And(l, r) =>
      if l.Some? { DecidedIsExact(l.value, es, m); }
      if r.Some? { DecidedIsExact(r.value, es, m); }
    case Or(l, r) =>
      if l.Some? { DecidedIsExact(l.value, es, m); }
      if r.Some? { DecidedIsExact(r.value, es, m); }
    case AllOf(ts) =>
      forall u | u in ts { DecidedIsExact(u, es, m); }
    case AnyOf(ts) =>
      forall u | u in ts { DecidedIsExact(u, es, m); }
    case _ =>
  }

  /** In particular the reducer is exact wherever every single EQ node is decided correctly. */
  lemma DecidedExact(t: Tree, es: seq<Endorsement>, m: Option<MessageView>)
    requires EqDecided(t, es, m)
    ensures Reduce(t, es, m) == Unset <==> Sat(t, es, m)
  {
    DecidedIsExact(t, es, m);
    TreeExactIff(t, es, m);
  }
}
