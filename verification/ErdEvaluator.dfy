/** The evaluators of requirement trees with the scans over n-ary terms that
    common/endorsement/endorsement.cpp writes as loops with early exits. The filter evaluator of
    common/logging/logging.cpp is the message evaluator again. */
module ErdEvaluator {
  import opened Common
  import opened ErdTree

  method EvaluateEndorsementTree(t: EndTree, e: Endorsement) returns (r: bool)
    ensures r == EvalEndorsement(t, e)
  {
    match t
    case EndEquals(Some(lhs), Some(rhs)) =>
      var left := EvaluateEndorsementTree(lhs, e);
      var right := EvaluateEndorsementTree(rhs, e);
      return left == right;
    case EndAnd(Some(lhs), Some(rhs)) =>
      var left := EvaluateEndorsementTree(lhs, e);
      if !left { return false; }
      r := EvaluateEndorsementTree(rhs, e);
    case EndOr(Some(lhs), Some(rhs)) =>
      var left := EvaluateEndorsementTree(lhs, e);
      if left { return true; }
      r := EvaluateEndorsementTree(rhs, e);
    case EndAllOf(terms) =>
      if terms == [] { return false; }
      for i := 0 to |terms|
        invariant forall u | u in terms[..i] :: EvalEndorsement(u, e)
      {
        var met := EvaluateEndorsementTree(terms[i], e);
        if !met { return false; }
      }
      return true;
    case EndAnyOf(terms) =>
      for i := 0 to |terms|
        invariant forall u | u in terms[..i] :: !EvalEndorsement(u, e)
      {
        var met := EvaluateEndorsementTree(terms[i], e);
        if met { return true; }
      }
      return false;
    case TypeEquals(Some(kind)) => return e.kind == kind;
    case ValueEquals(value) => return e.value == value;
    case SignerEquals(Some(signer)) => return e.service == signer;
    case EndTrue => return true;
    case _ => return false;
  }

  method EvaluateMessageTree(t: MesTree, m: MessageView) returns (r: bool)
    ensures r == EvalMessage(t, m)
  {
    match t
    case MesEquals(Some(lhs), Some(rhs)) =>
      var left := EvaluateMessageTree(lhs, m);
      var right := EvaluateMessageTree(rhs, m);
      return left == right;
    case MesAnd(Some(lhs), Some(rhs)) =>
      var left := EvaluateMessageTree(lhs, m);
      if !left { return false; }
      r := EvaluateMessageTree(rhs, m);
    case MesOr(Some(lhs), Some(rhs)) =>
      var left := EvaluateMessageTree(lhs, m);
      if left { return true; }
      r := EvaluateMessageTree(rhs, m);
    case MesAllOf(terms) =>
      if terms == [] { return false; }
      for i := 0 to |terms|
        invariant forall u | u in terms[..i] :: EvalMessage(u, m)
      {
        var met := EvaluateMessageTree(terms[i], m);
        if !met { return false; }
      }
      return true;
    case MesAnyOf(terms) =>
      for i := 0 to |terms|
        invariant forall u | u in terms[..i] :: !EvalMessage(u, m)
      {
        var met := EvaluateMessageTree(terms[i], m);
        if met { return true; }
      }
      return false;
    case FieldEquals(Some(path), Some(value)) => return m.fieldEquals(path, value);
    case FieldExists(Some(path)) => return m.fieldPresent(path);
    case FieldContains(Some(path), Some(sub), Some(value)) =>
      var elements := m.elements(path);
      for i := 0 to |elements|
        invariant forall k | 0 <= k < i :: !elements[k](sub, value)
      {
        if elements[i](sub, value) { return true; }
      }
      return false;
    case MesTrue => return true;
    case _ => return false;
  }

  /** One endorsement against a whole requirement; message leaves are not met. */
  method EvaluateRequirementTree(t: Tree, e: Endorsement) returns (r: bool)
    ensures r == EvalRequirement(t, e)
  {
    match t
    case Equals(Some(lhs), Some(rhs)) =>
      var left := EvaluateRequirementTree(lhs, e);
      var right := EvaluateRequirementTree(rhs, e);
      return left == right;
    case And(Some(lhs), Some(rhs)) =>
      var left := EvaluateRequirementTree(lhs, e);
      if !left { return false; }
      r := EvaluateRequirementTree(rhs, e);
    case Or(Some(lhs), Some(rhs)) =>
      var left := EvaluateRequirementTree(lhs, e);
      if left { return true; }
      r := EvaluateRequirementTree(rhs, e);
    case AllOf(terms) =>
      if terms == [] { return false; }
      for i := 0 to |terms|
        invariant forall u | u in terms[..i] :: EvalRequirement(u, e)
      {
        var met := EvaluateRequirementTree(terms[i], e);
        if !met { return false; }
      }
      return true;
    case AnyOf(terms) =>
      for i := 0 to |terms|
        invariant forall u | u in terms[..i] :: !EvalRequirement(u, e)
      {
        var met := EvaluateRequirementTree(terms[i], e);
        if met { return true; }
      }
      return false;
    case EndorsementLeaf(Some(p)) => r := EvaluateEndorsementTree(p, e);
    case True => return true;
    case _ => return false;
  }

  /** The message against a whole requirement; endorsement leaves are not met. */
  method EvaluateMessageRequirementTree(t: Tree, m: MessageView) returns (r: bool)
    ensures r == EvalMessageRequirement(t, m)
  {
    match t
    case Equals(Some(lhs), Some(rhs)) =>
      var left := EvaluateMessageRequirementTree(lhs, m);
      var right := EvaluateMessageRequirementTree(rhs, m);
      return left == right;
    case And(Some(lhs), Some(rhs)) =>
      var left := EvaluateMessageRequirementTree(lhs, m);
      if !left { return false; }
      r := EvaluateMessageRequirementTree(rhs, m);
    case Or(Some(lhs), Some(rhs)) =>
      var left := EvaluateMessageRequirementTree(lhs, m);
      if left { return true; }
      r := EvaluateMessageRequirementTree(rhs, m);
    case AllOf(terms) =>
      if terms == [] { return false; }
      for i := 0 to |terms|
        invariant forall u | u in terms[..i] :: EvalMessageRequirement(u, m)
      {
        var met := EvaluateMessageRequirementTree(terms[i], m);
        if !met { return false; }
      }
      return true;
    case AnyOf(terms) =>
      for i := 0 to |terms|
        invariant forall u | u in terms[..i] :: !EvalMessageRequirement(u, m)
      {
        var met := EvaluateMessageRequirementTree(terms[i], m);
        if met { return true; }
      }
      return false;
    case MessageLeaf(Some(c)) => r := EvaluateMessageTree(c, m);
    case True => return true;
    case _ => return false;
  }

  /** Whether some presented endorsement matches the whole requirement. */
  method AnyEndorsementMatchesTree(t: Tree, es: seq<Endorsement>) returns (r: bool)
    ensures r == exists e | e in es :: EvalRequirement(t, e)
  {
    for i := 0 to |es|
      invariant forall e | e in es[..i] :: !EvalRequirement(t, e)
    {
      var met := EvaluateRequirementTree(t, es[i]);
      if met { return true; }
    }
    return false;
  }
}
