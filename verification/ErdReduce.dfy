/** The constant folder and the partial evaluator of requirement trees
    (common/endorsement/endorsement.cpp), and what they promise: an unset result means
    "authorised", anything else is the requirement that remains. */
module ErdReduce {
  import opened Common
  import opened ErdTree
  import opened ErdEvaluator

  // ---------------------------------------------------------------- constant folding

  datatype Constant = Unknown | KnownTrue | KnownFalse

  function Known(b: bool): Constant {
    if b then KnownTrue else KnownFalse
  }

  function ConstantValue(t: Tree): Constant
  {
    match t
    case True => KnownTrue
    case False => KnownFalse
    case Equals(Some(l), Some(r)) =>
      var cl, cr := ConstantValue(l), ConstantValue(r);
      if cl == Unknown || cr == Unknown then Unknown else Known(cl == cr)
    case And(Some(l), Some(r)) =>
      var cl, cr := ConstantValue(l), ConstantValue(r);
      if cl == KnownFalse || cr == KnownFalse then KnownFalse
      else if cl == KnownTrue && cr == KnownTrue then KnownTrue else Unknown
    case Or(Some(l), Some(r)) =>
      var cl, cr := ConstantValue(l), ConstantValue(r);
      if cl == KnownTrue || cr == KnownTrue then KnownTrue
      else if cl == KnownFalse && cr == KnownFalse then KnownFalse else Unknown
    case AllOf(ts) =>
      if ts == [] then Unknown
      else if exists u | u in ts :: ConstantValue(u) == KnownFalse then KnownFalse
      else if forall u | u in ts :: ConstantValue(u) == KnownTrue then KnownTrue else Unknown
    case AnyOf(ts) =>
      if ts == [] then Unknown
      else if exists u | u in ts :: ConstantValue(u) == KnownTrue then KnownTrue
      else if forall u | u in ts :: ConstantValue(u) == KnownFalse then KnownFalse else Unknown
    case _ => Unknown
  }

  /** Folding is sound for both evaluators on every tree, well formed or not: a folded
      value is what either evaluator gives, whatever the endorsement or message. */
  lemma {:induction false} ConstantFoldingSound(t: Tree, e: Endorsement, m: MessageView)
    requires ConstantValue(t) != Unknown
    ensures EvalRequirement(t, e) == (ConstantValue(t) == KnownTrue)
    ensures EvalMessageRequirement(t, m) == (ConstantValue(t) == KnownTrue)
  {
    match t
    case Equals(Some(l), Some(r)) =>
      ConstantFoldingSound(l, e, m);
      ConstantFoldingSound(r, e, m);
    case And(Some(l), Some(r)) =>
      if ConstantValue(l) != Unknown { ConstantFoldingSound(l, e, m); }
      if ConstantValue(r) != Unknown { ConstantFoldingSound(r, e, m); }
    case Or(Some(l), Some(r)) =>
      if ConstantValue(l) != Unknown { ConstantFoldingSound(l, e, m); }
      if ConstantValue(r) != Unknown { ConstantFoldingSound(r, e, m); }
    case AllOf(ts) =>
      forall u | u in ts && ConstantValue(u) != Unknown { ConstantFoldingSound(u, e, m); }
    case AnyOf(ts) =>
      forall u | u in ts && ConstantValue(u) != Unknown { ConstantFoldingSound(u, e, m); }
    case _ =>
  }

  // ---------------------------------------------------------------- the reducer

  predicate AnyMatches(t: Tree, es: seq<Endorsement>) {
    exists e | e in es :: EvalRequirement(t, e)
  }

  /** Drops every occurrence of x. */
  function Without(ts: seq<Tree>, x: Tree): (r: seq<Tree>)
    ensures forall u :: u in r <==> u in ts && u != x
    ensures |r| <= |ts|
  {
    if ts == [] then []
    else if ts[0] == x then Without(ts[1..], x)
    else [ts[0]] + Without(ts[1..], x)
  }

  function CombineEquals(l: Tree, r: Tree): Tree {
    if l == Unset then r
    else if r == Unset then l
    else if l == False && r == False then Unset
    else Equals(Some(l), Some(r))
  }

  function CombineAnd(l: Tree, r: Tree): Tree {
    if l == Unset then r
    else if r == Unset then l
    else if l == False || r == False then False
    else And(Some(l), Some(r))
  }

  function CombineOr(l: Tree, r: Tree): Tree {
    if l == Unset || r == Unset then Unset
    else if l == False then r
    else if r == False then l
    else Or(Some(l), Some(r))
  }

  function CombineAllOf(reduced: seq<Tree>): Tree {
    if False in reduced then False
    else
      var remaining := Without(reduced, Unset);
      if remaining == [] then Unset
      else if |remaining| == 1 then remaining[0]
      else AllOf(remaining)
  }

  function CombineAnyOf(reduced: seq<Tree>): Tree {
    if Unset in reduced then Unset
    else
      var remaining := Without(reduced, False);
      if remaining == [] then False
      else if |remaining| == 1 then remaining[0]
      else AnyOf(remaining)
  }

  function Reduce(t: Tree, es: seq<Endorsement>, m: Option<MessageView>): Tree
    decreases t
  {
    if ConstantValue(t) == KnownTrue then Unset
    else if ConstantValue(t) == KnownFalse then False
    else if AnyMatches(t, es) then Unset
    else if m.Some? && t.MessageLeaf? then
      if EvalMessageRequirement(t, m.value) then Unset else False
    else
      match t
      case Equals(Some(l), Some(r)) => CombineEquals(Reduce(l, es, m), Reduce(r, es, m))
      case And(Some(l), Some(r)) => CombineAnd(Reduce(l, es, m), Reduce(r, es, m))
      case Or(Some(l), Some(r)) => CombineOr(Reduce(l, es, m), Reduce(r, es, m))
      case AllOf(ts) => if ts == [] then t else CombineAllOf(ReduceEach(ts, es, m))
      case AnyOf(ts) => if ts == [] then t else CombineAnyOf(ReduceEach(ts, es, m))
      case _ => t
  }

  function ReduceEach(ts: seq<Tree>, es: seq<Endorsement>, m: Option<MessageView>): (rs: seq<Tree>)
    ensures |rs| == |ts|
    decreases ts
  {
    if ts == [] then [] else [Reduce(ts[0], es, m)] + ReduceEach(ts[1..], es, m)
  }

  lemma {:induction false} ReduceEachAt(ts: seq<Tree>, es: seq<Endorsement>, m: Option<MessageView>, i: nat)
    requires i < |ts|
    ensures ReduceEach(ts, es, m)[i] == Reduce(ts[i], es, m)
  {
    if i > 0 { ReduceEachAt(ts[1..], es, m, i - 1); }
  }

  lemma ReduceEachAll(ts: seq<Tree>, es: seq<Endorsement>, m: Option<MessageView>)
    ensures forall i | 0 <= i < |ts| :: ReduceEach(ts, es, m)[i] == Reduce(ts[i], es, m)
  {
    forall i | 0 <= i < |ts| { ReduceEachAt(ts, es, m, i); }
  }

  // ---------------------------------------------------------------- direct semantics

  /** What a requirement means, without reference to reduction: every endorsement leaf needs
      some endorsement of the list, every message leaf is read off the message, the unset
      tree is satisfied, a binary node with a missing child or an empty list is not. */
  predicate Sat(t: Tree, es: seq<Endorsement>, m: Option<MessageView>)
    decreases t
  {
    match t
    case Unset => true
    case True => true
    case False => false
    case Equals(l, r) => l.Some? && r.Some? && Sat(l.value, es, m) == Sat(r.value, es, m)
    case And(l, r) => l.Some? && r.Some? && Sat(l.value, es, m) && Sat(r.value, es, m)
    case Or(l, r) => l.Some? && r.Some? && (Sat(l.value, es, m) || Sat(r.value, es, m))
    case AllOf(ts) => ts != [] && forall u | u in ts :: Sat(u, es, m)
    case AnyOf(ts) => exists u | u in ts :: Sat(u, es, m)
    case EndorsementLeaf(p) => p.Some? && exists e | e in es :: EvalEndorsement(p.value, e)
    case MessageLeaf(c) => c.Some? && m.Some? && EvalMessage(c.value, m.value)
  }

  /** Every requirement-level EQ folds to a constant; in particular, trees without EQ. */
  predicate EqFolds(t: Tree)
  {
    match t
    case Equals(_, _) => ConstantValue(t) != Unknown
    case And(l, r) => (l.Some? ==> EqFolds(l.value)) && (r.Some? ==> EqFolds(r.value))
    case Or(l, r) => (l.Some? ==> EqFolds(l.value)) && (r.Some? ==> EqFolds(r.value))
    case AllOf(ts) => forall u | u in ts :: EqFolds(u)
    case AnyOf(ts) => forall u | u in ts :: EqFolds(u)
    case _ => true
  }

  lemma {:induction false} ConstantMeaning(t: Tree, es: seq<Endorsement>, m: Option<MessageView>)
    requires ConstantValue(t) != Unknown
    ensures Sat(t, es, m) == (ConstantValue(t) == KnownTrue)
  {
    match t
    case Equals(Some(l), Some(r)) =>
      ConstantMeaning(l, es, m);
      ConstantMeaning(r, es, m);
    case And(Some(l), Some(r)) =>
      if ConstantValue(l) != Unknown { ConstantMeaning(l, es, m); }
      if ConstantValue(r) != Unknown { ConstantMeaning(r, es, m); }
    case Or(Some(l), Some(r)) =>
      if ConstantValue(l) != Unknown { ConstantMeaning(l, es, m); }
      if ConstantValue(r) != Unknown { ConstantMeaning(r, es, m); }
    case AllOf(ts) =>
      forall u | u in ts && ConstantValue(u) != Unknown { ConstantMeaning(u, es, m); }
    case AnyOf(ts) =>
      forall u | u in ts && ConstantValue(u) != Unknown { ConstantMeaning(u, es, m); }
    case _ =>
  }

  /** One endorsement that matches a whole tree satisfies it. This is where EQ is not allowed. */
  lemma {:induction false} MatchSatisfies(t: Tree, e: Endorsement, es: seq<Endorsement>, m: Option<MessageView>)
    requires EqFolds(t) && e in es && EvalRequirement(t, e)
    ensures Sat(t, es, m)
  {
    match t
    case Equals(_, _) =>
      ConstantMeaning(t, es, m);
      ConstantFoldingSound(t, e, MessageView((_, _) => false, _ => false, _ => []));
    case And(Some(l), Some(r)) =>
      MatchSatisfies(l, e, es, m);
      MatchSatisfies(r, e, es, m);
    case Or(Some(l), Some(r)) =>
      if EvalRequirement(l, e) { MatchSatisfies(l, e, es, m); } else { MatchSatisfies(r, e, es, m); }
    case AllOf(ts) =>
      forall u | u in ts { MatchSatisfies(u, e, es, m); }
    case AnyOf(ts) =>
      var u :| u in ts && EvalRequirement(u, e);
      MatchSatisfies(u, e, es, m);
    case _ =>
  }

  // ---------------------------------------------------------------- normal form

  predicate Open(t: Tree) {
    t != Unset && t != False
  }

  /** The shape of a reduced tree: settled leaves are gone, no constant is left below the
      root, and malformed nodes are kept as they are. */
  predicate Residual(t: Tree, es: seq<Endorsement>, m: Option<MessageView>)
    decreases t
  {
    match t
    case Unset => true
    case False => true
    case True => false
    case Equals(_, _) => false
    case And(Some(l), Some(r)) => Open(l) && Open(r) && Residual(l, es, m) && Residual(r, es, m)
    case Or(Some(l), Some(r)) => Open(l) && Open(r) && Residual(l, es, m) && Residual(r, es, m)
    case And(_, _) => true
    case Or(_, _) => true
    case AllOf(ts) => |ts| != 1 && forall u | u in ts :: Open(u) && Residual(u, es, m)
    case AnyOf(ts) => |ts| != 1 && forall u | u in ts :: Open(u) && Residual(u, es, m)
    case EndorsementLeaf(_) => !AnyMatches(t, es)
    case MessageLeaf(_) => m.None?
  }

  lemma {:induction false} ReduceIsResidual(t: Tree, es: seq<Endorsement>, m: Option<MessageView>)
    requires EqFolds(t)
    ensures Residual(Reduce(t, es, m), es, m) && EqFolds(Reduce(t, es, m))
  {
    if ConstantValue(t) == Unknown && !AnyMatches(t, es) {
      match t
      case And(Some(l), Some(r)) =>
        ReduceIsResidual(l, es, m);
        ReduceIsResidual(r, es, m);
        CombineAndIsResidual(Reduce(l, es, m), Reduce(r, es, m), es, m);
      case Or(Some(l), Some(r)) =>
        ReduceIsResidual(l, es, m);
        ReduceIsResidual(r, es, m);
        CombineOrIsResidual(Reduce(l, es, m), Reduce(r, es, m), es, m);
      case AllOf(ts) =>
        forall u | u in ts { ReduceIsResidual(u, es, m); }
        EachIsResidual(ts, es, m);
      case AnyOf(ts) =>
        forall u | u in ts { ReduceIsResidual(u, es, m); }
        EachIsResidual(ts, es, m);
      case _ =>
    }
  }

  lemma EachIsResidual(ts: seq<Tree>, es: seq<Endorsement>, m: Option<MessageView>)
    requires forall u | u in ts :: Residual(Reduce(u, es, m), es, m) && EqFolds(Reduce(u, es, m))
    ensures var all, any := CombineAllOf(ReduceEach(ts, es, m)), CombineAnyOf(ReduceEach(ts, es, m));
            Residual(all, es, m) && EqFolds(all) && Residual(any, es, m) && EqFolds(any)
  {
    ReduceEachAll(ts, es, m);
    CombineIsResidual(ReduceEach(ts, es, m), es, m);
  }

  lemma CombineAndIsResidual(l: Tree, r: Tree, es: seq<Endorsement>, m: Option<MessageView>)
    requires Residual(l, es, m) && EqFolds(l) && Residual(r, es, m) && EqFolds(r)
    ensures Residual(CombineAnd(l, r), es, m) && EqFolds(CombineAnd(l, r))
  {
  }

  lemma CombineOrIsResidual(l: Tree, r: Tree, es: seq<Endorsement>, m: Option<MessageView>)
    requires Residual(l, es, m) && EqFolds(l) && Residual(r, es, m) && EqFolds(r)
    ensures Residual(CombineOr(l, r), es, m) && EqFolds(CombineOr(l, r))
  {
  }

  lemma CombineIsResidual(rs: seq<Tree>, es: seq<Endorsement>, m: Option<MessageView>)
    requires forall r | r in rs :: Residual(r, es, m) && EqFolds(r)
    ensures Residual(CombineAllOf(rs), es, m) && EqFolds(CombineAllOf(rs))
    ensures Residual(CombineAnyOf(rs), es, m) && EqFolds(CombineAnyOf(rs))
  {
    var all, any := Without(rs, Unset), Without(rs, False);
    if all != [] { assert all[0] in all; }
    if any != [] { assert any[0] in any; }
  }

  /** A residual tree is not constant and no endorsement already seen matches it. */
  lemma {:induction false} ResidualUndecided(t: Tree, es: seq<Endorsement>, m: Option<MessageView>)
    requires Residual(t, es, m) && t != False
    ensures ConstantValue(t) == Unknown && !AnyMatches(t, es)
  {
    match t
    case And(Some(l), Some(r)) =>
      ResidualUndecided(l, es, m);
      ResidualUndecided(r, es, m);
    case Or(Some(l), Some(r)) =>
      ResidualUndecided(l, es, m);
      ResidualUndecided(r, es, m);
    case AllOf(ts) =>
      forall u | u in ts { ResidualUndecided(u, es, m); }
      if ts != [] { assert ts[0] in ts; }
    case AnyOf(ts) =>
      forall u | u in ts { ResidualUndecided(u, es, m); }
      if ts != [] { assert ts[0] in ts; }
    case _ =>
  }

  lemma {:induction false} WithoutAbsent(ts: seq<Tree>, x: Tree)
    requires x !in ts
    ensures Without(ts, x) == ts
  {
    if ts != [] { WithoutAbsent(ts[1..], x); }
  }

  lemma {:induction false} ReduceResidual(t: Tree, es: seq<Endorsement>, m: Option<MessageView>)
    requires Residual(t, es, m)
    ensures Reduce(t, es, m) == t
  {
    if t != False { ResidualUndecided(t, es, m); }
    match t
    case And(Some(l), Some(r)) =>
      ReduceResidual(l, es, m);
      ReduceResidual(r, es, m);
    case Or(Some(l), Some(r)) =>
      ReduceResidual(l, es, m);
      ReduceResidual(r, es, m);
    case AllOf(ts) =>
      forall u | u in ts { ReduceResidual(u, es, m); }
      ReduceEachAll(ts, es, m);
      assert ReduceEach(ts, es, m) == ts;
      WithoutAbsent(ts, Unset);
    case AnyOf(ts) =>
      forall u | u in ts { ReduceResidual(u, es, m); }
      ReduceEachAll(ts, es, m);
      assert ReduceEach(ts, es, m) == ts;
      WithoutAbsent(ts, False);
    case _ =>
  }

  /** With nothing further presented, an open residual requirement is not met. */
  lemma {:induction false} ResidualUnmet(t: Tree, es: seq<Endorsement>, m: Option<MessageView>)
    requires Residual(t, es, m) && t != Unset
    ensures !Sat(t, [], None)
  {
    match t
    case And(Some(l), Some(r)) =>
      ResidualUnmet(l, es, m);
    case Or(Some(l), Some(r)) =>
      ResidualUnmet(l, es, m);
      ResidualUnmet(r, es, m);
    case AllOf(ts) =>
      if ts != [] { ResidualUnmet(ts[0], es, m); }
    case AnyOf(ts) =>
      forall u | u in ts { ResidualUnmet(u, es, m); }
    case _ =>
  }

  // ---------------------------------------------------------------- main theorems

  /** The message known after two stages: the first one presented. */
  function FirstMessage(m0: Option<MessageView>, m1: Option<MessageView>): Option<MessageView> {
    if m0.Some? then m0 else m1
  }

  /** Residuals compose. Judging what remains after one stage by the endorsements (and, if it
      was absent, the message) of a later stage is judging the original by all of them. */
  lemma {:induction false} ReduceMeaning(t: Tree, es: seq<Endorsement>, m0: Option<MessageView>,
                                         more: seq<Endorsement>, m1: Option<MessageView>)
    requires EqFolds(t)
    ensures Sat(Reduce(t, es, m0), more, m1) == Sat(t, es + more, FirstMessage(m0, m1))
    decreases t
  {
    var m := FirstMessage(m0, m1);
    if ConstantValue(t) != Unknown {
      ConstantMeaning(t, es + more, m);
    } else if AnyMatches(t, es) {
      var e :| e in es && EvalRequirement(t, e);
      MatchSatisfies(t, e, es + more, m);
    } else {
      match t
      case And(Some(l), Some(r)) =>
        ReduceMeaning(l, es, m0, more, m1);
        ReduceMeaning(r, es, m0, more, m1);
        AndMeaning(Reduce(l, es, m0), Reduce(r, es, m0), more, m1);
      case Or(Some(l), Some(r)) =>
        ReduceMeaning(l, es, m0, more, m1);
        ReduceMeaning(r, es, m0, more, m1);
        OrMeaning(Reduce(l, es, m0), Reduce(r, es, m0), more, m1);
      case AllOf(ts) =>
        if ts != [] {
          TermsMeaning(ts, es, m0, more, m1);
          AllOfMeaning(ReduceEach(ts, es, m0), more, m1);
        }
      case AnyOf(ts) =>
        TermsMeaning(ts, es, m0, more, m1);
        AnyOfMeaning(ReduceEach(ts, es, m0), more, m1);
      case EndorsementLeaf(p) =>
        assert forall e | e in es :: !EvalRequirement(t, e);
      case _ =>
    }
  }

  lemma {:induction false} TermsMeaning(ts: seq<Tree>, es: seq<Endorsement>, m0: Option<MessageView>,
                                        more: seq<Endorsement>, m1: Option<MessageView>)
    requires forall u | u in ts :: EqFolds(u)
    ensures var rs, m := ReduceEach(ts, es, m0), FirstMessage(m0, m1);
            && (forall r | r in rs :: Sat(r, more, m1)) == (forall u | u in ts :: Sat(u, es + more, m))
            && (exists r | r in rs :: Sat(r, more, m1)) == (exists u | u in ts :: Sat(u, es + more, m))
    decreases ts
  {
    var rs, m := ReduceEach(ts, es, m0), FirstMessage(m0, m1);
    forall i | 0 <= i < |ts|
      ensures Sat(rs[i], more, m1) == Sat(ts[i], es + more, m)
    {
      ReduceEachAt(ts, es, m0, i);
      ReduceMeaning(ts[i], es, m0, more, m1);
    }
    SameTruths(rs, more, m1, ts, es + more, m);
  }

  lemma AndMeaning(l: Tree, r: Tree, es: seq<Endorsement>, m: Option<MessageView>)
    ensures Sat(CombineAnd(l, r), es, m) == (Sat(l, es, m) && Sat(r, es, m))
  {
  }

  lemma OrMeaning(l: Tree, r: Tree, es: seq<Endorsement>, m: Option<MessageView>)
    ensures Sat(CombineOr(l, r), es, m) == (Sat(l, es, m) || Sat(r, es, m))
  {
  }

  /** Term-by-term agreement carries over to "all" and "any". */
  lemma SameTruths(rs: seq<Tree>, es: seq<Endorsement>, m: Option<MessageView>,
                   ts: seq<Tree>, es': seq<Endorsement>, m': Option<MessageView>)
    requires |rs| == |ts|
    requires forall i | 0 <= i < |ts| :: Sat(rs[i], es, m) == Sat(ts[i], es', m')
    ensures (forall r | r in rs :: Sat(r, es, m)) == (forall u | u in ts :: Sat(u, es', m'))
    ensures (exists r | r in rs :: Sat(r, es, m)) == (exists u | u in ts :: Sat(u, es', m'))
  {
    assert (forall r | r in rs :: Sat(r, es, m)) == (forall i | 0 <= i < |rs| :: Sat(rs[i], es, m));
    assert (forall u | u in ts :: Sat(u, es', m')) == (forall i | 0 <= i < |ts| :: Sat(ts[i], es', m'));
    assert (exists r | r in rs :: Sat(r, es, m)) == (exists i | 0 <= i < |rs| :: Sat(rs[i], es, m));
    assert (exists u | u in ts :: Sat(u, es', m')) == (exists i | 0 <= i < |ts| :: Sat(ts[i], es', m'));
  }

  lemma AllOfMeaning(rs: seq<Tree>, es: seq<Endorsement>, m: Option<MessageView>)
    requires rs != []
    ensures Sat(CombineAllOf(rs), es, m) <==> forall r | r in rs :: Sat(r, es, m)
  {
    var rem := Without(rs, Unset);
    assert (forall r | r in rs :: Sat(r, es, m)) <==> forall r | r in rem :: Sat(r, es, m);
    if |rem| == 1 { assert forall r | r in rem :: r == rem[0]; }
  }

  lemma AnyOfMeaning(rs: seq<Tree>, es: seq<Endorsement>, m: Option<MessageView>)
    ensures Sat(CombineAnyOf(rs), es, m) <==> exists r | r in rs :: Sat(r, es, m)
  {
    var rem := Without(rs, False);
    assert (exists r | r in rs :: Sat(r, es, m)) <==> exists r | r in rem :: Sat(r, es, m);
    if |rem| == 1 { assert forall r | r in rem :: r == rem[0]; }
  }

  /** The reducer is exact: the unset tree comes back if and only if the requirement is met. */
  lemma ReduceExact(t: Tree, es: seq<Endorsement>, m: Option<MessageView>)
    requires EqFolds(t)
    ensures Reduce(t, es, m) == Unset <==> Sat(t, es, m)
  {
    ReduceMeaning(t, es, m, [], None);
    assert es + [] == es;
    ReduceIsResidual(t, es, m);
    if Reduce(t, es, m) != Unset { ResidualUnmet(Reduce(t, es, m), es, m); }
  }

  /** Reducing a reduced tree again with the same inputs changes nothing. */
  lemma ReduceIdempotent(t: Tree, es: seq<Endorsement>, m: Option<MessageView>)
    requires EqFolds(t)
    ensures Reduce(Reduce(t, es, m), es, m) == Reduce(t, es, m)
  {
    ReduceIsResidual(t, es, m);
    ReduceResidual(Reduce(t, es, m), es, m);
  }

  /** One round of presenting evidence. */
  datatype Stage = Stage(endorsements: seq<Endorsement>, message: Option<MessageView>)

  function ReduceStages(t: Tree, stages: seq<Stage>): Tree
    decreases stages
  {
    if stages == [] then t
    else ReduceStages(Reduce(t, stages[0].endorsements, stages[0].message), stages[1..])
  }

  function AllEndorsements(stages: seq<Stage>): seq<Endorsement> {
    if stages == [] then [] else stages[0].endorsements + AllEndorsements(stages[1..])
  }

  function MessageOf(stages: seq<Stage>): Option<MessageView> {
    if stages == [] then None else FirstMessage(stages[0].message, MessageOf(stages[1..]))
  }

  lemma {:induction false} StagesMeaning(t: Tree, stages: seq<Stage>)
    requires EqFolds(t)
    ensures EqFolds(ReduceStages(t, stages))
    ensures Sat(ReduceStages(t, stages), [], None) == Sat(t, AllEndorsements(stages), MessageOf(stages))
    decreases stages
  {
    if stages != [] {
      var s := stages[0];
      ReduceIsResidual(t, s.endorsements, s.message);
      StagesMeaning(Reduce(t, s.endorsements, s.message), stages[1..]);
      ReduceMeaning(t, s.endorsements, s.message, AllEndorsements(stages[1..]), MessageOf(stages[1..]));
    }
  }

  /** However the evidence is split into stages, the last reduction yields the unset tree
      exactly when reducing once with everything does. */
  lemma StagedReductionExact(t: Tree, stages: seq<Stage>)
    requires EqFolds(t) && stages != []
    ensures ReduceStages(t, stages) == Unset
       <==> Reduce(t, AllEndorsements(stages), MessageOf(stages)) == Unset
  {
    StagesMeaning(t, stages);
    ReduceExact(t, AllEndorsements(stages), MessageOf(stages));
    LastStageIsResidual(t, stages);
  }

  lemma {:induction false} LastStageIsResidual(t: Tree, stages: seq<Stage>)
    requires EqFolds(t) && stages != []
    ensures ReduceStages(t, stages) != Unset ==> !Sat(ReduceStages(t, stages), [], None)
    decreases stages
  {
    var s := stages[0];
    var r := Reduce(t, s.endorsements, s.message);
    ReduceIsResidual(t, s.endorsements, s.message);
    if |stages| == 1 {
      assert stages[1..] == [];
      if r != Unset { ResidualUnmet(r, s.endorsements, s.message); }
    } else {
      LastStageIsResidual(r, stages[1..]);
    }
  }

  // ---------------------------------------------------------------- size

  function Nodes(t: Tree): (n: nat)
    ensures n >= 1
  {
    match t
    case Equals(l, r) => 1 + ChildNodes(l) + ChildNodes(r)
    case And(l, r) => 1 + ChildNodes(l) + ChildNodes(r)
    case Or(l, r) => 1 + ChildNodes(l) + ChildNodes(r)
    case AllOf(ts) => 1 + NodesOfAll(ts)
    case AnyOf(ts) => 1 + NodesOfAll(ts)
    case _ => 1
  }

  function ChildNodes(t: Option<Tree>): nat {
    if t.None? then 0 else Nodes(t.value)
  }

  function NodesOfAll(ts: seq<Tree>): nat {
    if ts == [] then 0 else Nodes(ts[0]) + NodesOfAll(ts[1..])
  }

  lemma {:induction false} WithoutNeverGrows(ts: seq<Tree>, x: Tree)
    ensures NodesOfAll(Without(ts, x)) <= NodesOfAll(ts)
  {
    if ts != [] {
      WithoutNeverGrows(ts[1..], x);
      if ts[0] != x { assert Without(ts, x)[1..] == Without(ts[1..], x); }
    }
  }

  /** Reduction never adds a node, on any tree, malformed ones and EQ included. */
  lemma {:induction false} ReduceNeverGrows(t: Tree, es: seq<Endorsement>, m: Option<MessageView>)
    ensures Nodes(Reduce(t, es, m)) <= Nodes(t)
    decreases t
  {
    match t
    case Equals(Some(l), Some(r)) =>
      ReduceNeverGrows(l, es, m);
      ReduceNeverGrows(r, es, m);
      CombineNeverGrows(Reduce(l, es, m), Reduce(r, es, m));
    case And(Some(l), Some(r)) =>
      ReduceNeverGrows(l, es, m);
      ReduceNeverGrows(r, es, m);
      CombineNeverGrows(Reduce(l, es, m), Reduce(r, es, m));
    case Or(Some(l), Some(r)) =>
      ReduceNeverGrows(l, es, m);
      ReduceNeverGrows(r, es, m);
      CombineNeverGrows(Reduce(l, es, m), Reduce(r, es, m));
    case AllOf(ts) =>
      ReduceEachNeverGrows(ts, es, m);
      CombineAllNeverGrows(ReduceEach(ts, es, m));
    case AnyOf(ts) =>
      ReduceEachNeverGrows(ts, es, m);
      CombineAllNeverGrows(ReduceEach(ts, es, m));
    case _ =>
  }

  lemma CombineNeverGrows(l: Tree, r: Tree)
    ensures Nodes(CombineEquals(l, r)) <= 1 + Nodes(l) + Nodes(r)
    ensures Nodes(CombineAnd(l, r)) <= 1 + Nodes(l) + Nodes(r)
    ensures Nodes(CombineOr(l, r)) <= 1 + Nodes(l) + Nodes(r)
  {
  }

  lemma CombineAllNeverGrows(rs: seq<Tree>)
    ensures Nodes(CombineAllOf(rs)) <= 1 + NodesOfAll(rs)
    ensures Nodes(CombineAnyOf(rs)) <= 1 + NodesOfAll(rs)
  {
    WithoutNeverGrows(rs, Unset);
    SingleTerm(Without(rs, Unset));
    WithoutNeverGrows(rs, False);
    SingleTerm(Without(rs, False));
  }

  lemma {:induction false} ReduceEachNeverGrows(ts: seq<Tree>, es: seq<Endorsement>, m: Option<MessageView>)
    ensures NodesOfAll(ReduceEach(ts, es, m)) <= NodesOfAll(ts)
    decreases ts
  {
    if ts != [] {
      ReduceNeverGrows(ts[0], es, m);
      ReduceEachNeverGrows(ts[1..], es, m);
      assert ReduceEach(ts, es, m)[1..] == ReduceEach(ts[1..], es, m);
    }
  }

  lemma SingleTerm(ts: seq<Tree>)
    ensures |ts| == 1 ==> NodesOfAll(ts) == Nodes(ts[0])
  {
    if |ts| == 1 { assert ts[1..] == []; }
  }

  // ---------------------------------------------------------------- the loops

  /** getConstantTreeValue, with its scans over n-ary terms. */
  method GetConstantTreeValue(t: Tree) returns (c: Constant)
    ensures c == ConstantValue(t)
    decreases t
  {
    match t
    case True => c := KnownTrue;
    case False => c := KnownFalse;
    case Equals(Some(l), Some(r)) =>
      var cl := GetConstantTreeValue(l);
      var cr := GetConstantTreeValue(r);
      c := if cl == Unknown || cr == Unknown then Unknown else Known(cl == cr);
    case And(Some(l), Some(r)) =>
      var cl := GetConstantTreeValue(l);
      var cr := GetConstantTreeValue(r);
      c := if cl == KnownFalse || cr == KnownFalse then KnownFalse
           else if cl == KnownTrue && cr == KnownTrue then KnownTrue else Unknown;
    case Or(Some(l), Some(r)) =>
      var cl := GetConstantTreeValue(l);
      var cr := GetConstantTreeValue(r);
      c := if cl == KnownTrue || cr == KnownTrue then KnownTrue
           else if cl == KnownFalse && cr == KnownFalse then KnownFalse else Unknown;
    case AllOf(ts) =>
      if ts == [] { return Unknown; }
      var allTrue := true;
      for i := 0 to |ts|
        invariant forall u | u in ts[..i] :: ConstantValue(u) != KnownFalse
        invariant allTrue <==> forall u | u in ts[..i] :: ConstantValue(u) == KnownTrue
      {
        var value := GetConstantTreeValue(ts[i]);
        assert ts[..i + 1] == ts[..i] + [ts[i]];
        if value == KnownFalse { return KnownFalse; }
        if value != KnownTrue { allTrue := false; }
      }
      assert ts[..|ts|] == ts;
      c := if allTrue then KnownTrue else Unknown;
    case AnyOf(ts) =>
      if ts == [] { return Unknown; }
      var allFalse := true;
      for i := 0 to |ts|
        invariant forall u | u in ts[..i] :: ConstantValue(u) != KnownTrue
        invariant allFalse <==> forall u | u in ts[..i] :: ConstantValue(u) == KnownFalse
      {
        var value := GetConstantTreeValue(ts[i]);
        assert ts[..i + 1] == ts[..i] + [ts[i]];
        if value == KnownTrue { return KnownTrue; }
        if value != KnownFalse { allFalse := false; }
      }
      assert ts[..|ts|] == ts;
      c := if allFalse then KnownFalse else Unknown;
    case _ => c := Unknown;
  }

  lemma {:induction false} WithoutAppend(ts: seq<Tree>, u: Tree, x: Tree)
    ensures Without(ts + [u], x) == Without(ts, x) + (if u == x then [] else [u])
  {
    var last := if u == x then [] else [u];
    if ts == [] {
      assert ts + [u] == [u] && [u][1..] == [];
    } else {
      WithoutAppend(ts[1..], u, x);
      assert (ts + [u])[1..] == ts[1..] + [u];
      Regroup([ts[0]], Without(ts[1..], x), last);
    }
  }

  lemma TermTaken(reduced: seq<Tree>, i: nat, x: Tree)
    requires i < |reduced|
    ensures reduced[..i + 1] == reduced[..i] + [reduced[i]]
    ensures Without(reduced[..i + 1], x) == Without(reduced[..i], x) + (if reduced[i] == x then [] else [reduced[i]])
  {
    assert reduced[..i + 1] == reduced[..i] + [reduced[i]];
    WithoutAppend(reduced[..i], reduced[i], x);
  }

  /** reduceRequirementTreeImpl, collecting the remaining n-ary terms in a loop that stops
      at the first decisive term. */
  method ReduceRequirementTree(t: Tree, es: seq<Endorsement>, m: Option<MessageView>) returns (r: Tree)
    ensures r == Reduce(t, es, m)
    decreases t, 1
  {
    var constant := GetConstantTreeValue(t);
    if constant == KnownTrue { return Unset; }
    if constant == KnownFalse { return False; }
    var matched := AnyEndorsementMatchesTree(t, es);
    if matched { return Unset; }
    if m.Some? && t.MessageLeaf? {
      var met := EvaluateMessageRequirementTree(t, m.value);
      return if met then Unset else False;
    }
    match t
    case Equals(Some(lhs), Some(rhs)) =>
      var left := ReduceRequirementTree(lhs, es, m);
      var right := ReduceRequirementTree(rhs, es, m);
      r := CombineEquals(left, right);
    case And(Some(lhs), Some(rhs)) =>
      var left := ReduceRequirementTree(lhs, es, m);
      var right := ReduceRequirementTree(rhs, es, m);
      r := CombineAnd(left, right);
    case Or(Some(lhs), Some(rhs)) =>
      var left := ReduceRequirementTree(lhs, es, m);
      var right := ReduceRequirementTree(rhs, es, m);
      r := CombineOr(left, right);
    case AllOf(ts) =>
      if ts == [] { return t; }
      r := ReduceAllOfTerms(ts, es, m);
    case AnyOf(ts) =>
      if ts == [] { return t; }
      r := ReduceAnyOfTerms(ts, es, m);
    case _ => r := t;
  }

  method ReduceAllOfTerms(ts: seq<Tree>, es: seq<Endorsement>, m: Option<MessageView>) returns (r: Tree)
    ensures r == CombineAllOf(ReduceEach(ts, es, m))
    decreases ts, 0
  {
    ghost var reduced := ReduceEach(ts, es, m);
    var remaining := [];
    for i := 0 to |ts|
      invariant False !in reduced[..i]
      invariant remaining == Without(reduced[..i], Unset)
    {
      var term := ReduceRequirementTree(ts[i], es, m);
      ReduceEachAt(ts, es, m, i);
      TermTaken(reduced, i, Unset);
      if term == Unset { continue; }
      if term == False { return False; }
      remaining := remaining + [term];
    }
    assert reduced[..|ts|] == reduced;
    r := if remaining == [] then Unset else if |remaining| == 1 then remaining[0] else AllOf(remaining);
  }

  method ReduceAnyOfTerms(ts: seq<Tree>, es: seq<Endorsement>, m: Option<MessageView>) returns (r: Tree)
    ensures r == CombineAnyOf(ReduceEach(ts, es, m))
    decreases ts, 0
  {
    ghost var reduced := ReduceEach(ts, es, m);
    var remaining := [];
    for i := 0 to |ts|
      invariant Unset !in reduced[..i]
      invariant remaining == Without(reduced[..i], False)
    {
      var term := ReduceRequirementTree(ts[i], es, m);
      ReduceEachAt(ts, es, m, i);
      TermTaken(reduced, i, False);
      if term == Unset { return Unset; }
      if term == False { continue; }
      remaining := remaining + [term];
    }
    assert reduced[..|ts|] == reduced;
    r := if remaining == [] then False else if |remaining| == 1 then remaining[0] else AnyOf(remaining);
  }
}
