/** The requirement-tree language: its three nested syntax trees and the evaluators
    of common/endorsement/endorsement.cpp. Optional children are the protobuf
    sub-messages that may be missing. */
module ErdTree {
  import opened Common

  type FieldPath = seq<string>

  datatype FieldValue =
    | ValueUnset
    | BytesValue(bytes: Bytes)
    | StringValue(text: string)
    | IntValue(int64: int)
    | UintValue(uint64: nat)
    | BoolValue(flag: bool)
    | EnumValue(int32: int)

  /** Predicates on one endorsement. */
  datatype EndTree =
    | EndUnset
    | EndTrue
    | EndFalse
    | EndEquals(lhs: Option<EndTree>, rhs: Option<EndTree>)
    | EndAnd(lhs: Option<EndTree>, rhs: Option<EndTree>)
    | EndOr(lhs: Option<EndTree>, rhs: Option<EndTree>)
    | EndAllOf(terms: seq<EndTree>)
    | EndAnyOf(terms: seq<EndTree>)
    | TypeEquals(kind: Option<Uuid>)
    | ValueEquals(value: Bytes)
    | SignerEquals(signer: Option<Uuid>)

  /** Predicates on the message being authorised. */
  datatype MesTree =
    | MesUnset
    | MesTrue
    | MesFalse
    | MesEquals(lhs: Option<MesTree>, rhs: Option<MesTree>)
    | MesAnd(lhs: Option<MesTree>, rhs: Option<MesTree>)
    | MesOr(lhs: Option<MesTree>, rhs: Option<MesTree>)
    | MesAllOf(terms: seq<MesTree>)
    | MesAnyOf(terms: seq<MesTree>)
    | FieldEquals(path: Option<FieldPath>, value: Option<FieldValue>)
    | FieldExists(path: Option<FieldPath>)
    | FieldContains(path: Option<FieldPath>, subPath: Option<FieldPath>, value: Option<FieldValue>)

  /** Requirement trees. */
  datatype Tree =
    | Unset
    | True
    | False
    | Equals(lhs: Option<Tree>, rhs: Option<Tree>)
    | And(lhs: Option<Tree>, rhs: Option<Tree>)
    | Or(lhs: Option<Tree>, rhs: Option<Tree>)
    | AllOf(terms: seq<Tree>)
    | AnyOf(terms: seq<Tree>)
    | EndorsementLeaf(predicate_: Option<EndTree>)
    | MessageLeaf(condition: Option<MesTree>)

  datatype Endorsement = Endorsement(
    subject: Uuid,
    service: Uuid,
    kind: Uuid,
    value: Bytes,
    validUntil: Uint64,
    signature: Bytes)

  /** What the evaluators can observe of a message: comparing the field at a path with a
      literal, presence of a field, and the same comparison on every element of a
      repeated field. Field lookup itself is left uninterpreted. */
  datatype MessageView = MessageView(
    fieldEquals: (FieldPath, FieldValue) -> bool,
    fieldPresent: FieldPath -> bool,
    elements: FieldPath -> seq<(FieldPath, FieldValue) -> bool>)

  predicate EvalEndorsement(t: EndTree, e: Endorsement)
  {
    match t
    case EndUnset => false
    case EndTrue => true
    case EndFalse => false
    case EndEquals(l, r) =>
      l.Some? && r.Some? && EvalEndorsement(l.value, e) == EvalEndorsement(r.value, e)
    case EndAnd(l, r) =>
      l.Some? && r.Some? && EvalEndorsement(l.value, e) && EvalEndorsement(r.value, e)
    case EndOr(l, r) =>
      l.Some? && r.Some? && (EvalEndorsement(l.value, e) || EvalEndorsement(r.value, e))
    case EndAllOf(ts) => ts != [] && forall u | u in ts :: EvalEndorsement(u, e)
    case EndAnyOf(ts) => exists u | u in ts :: EvalEndorsement(u, e)
    case TypeEquals(kind) => kind.Some? && e.kind == kind.value
    case ValueEquals(value) => e.value == value
    case SignerEquals(signer) => signer.Some? && e.service == signer.value
  }

  predicate EvalMessage(t: MesTree, m: MessageView)
  {
    match t
    case MesUnset => false
    case MesTrue => true
    case MesFalse => false
    case MesEquals(l, r) =>
      l.Some? && r.Some? && EvalMessage(l.value, m) == EvalMessage(r.value, m)
    case MesAnd(l, r) =>
      l.Some? && r.Some? && EvalMessage(l.value, m) && EvalMessage(r.value, m)
    case MesOr(l, r) =>
      l.Some? && r.Some? && (EvalMessage(l.value, m) || EvalMessage(r.value, m))
    case MesAllOf(ts) => ts != [] && forall u | u in ts :: EvalMessage(u, m)
    case MesAnyOf(ts) => exists u | u in ts :: EvalMessage(u, m)
    case FieldEquals(path, value) =>
      path.Some? && value.Some? && m.fieldEquals(path.value, value.value)
    case FieldExists(path) => path.Some? && m.fieldPresent(path.value)
    case FieldContains(path, sub, value) =>
      path.Some? && sub.Some? && value.Some? &&
      var elements := m.elements(path.value);
      exists i | 0 <= i < |elements| :: elements[i](sub.value, value.value)
  }

  /** A whole requirement tree tried against one endorsement; message leaves read as false. */
  predicate EvalRequirement(t: Tree, e: Endorsement)
  {
    match t
    case Unset => false
    case True => true
    case False => false
    case Equals(l, r) =>
      l.Some? && r.Some? && EvalRequirement(l.value, e) == EvalRequirement(r.value, e)
    case And(l, r) =>
      l.Some? && r.Some? && EvalRequirement(l.value, e) && EvalRequirement(r.value, e)
    case Or(l, r) =>
      l.Some? && r.Some? && (EvalRequirement(l.value, e) || EvalRequirement(r.value, e))
    case AllOf(ts) => ts != [] && forall u | u in ts :: EvalRequirement(u, e)
    case AnyOf(ts) => exists u | u in ts :: EvalRequirement(u, e)
    case EndorsementLeaf(p) => p.Some? && EvalEndorsement(p.value, e)
    case MessageLeaf(_) => false
  }

  /** A whole requirement tree tried against the message; endorsement leaves read as false. */
  predicate EvalMessageRequirement(t: Tree, m: MessageView)
  {
    match t
    case Unset => false
    case True => true
    case False => false
    case Equals(l, r) =>
      l.Some? && r.Some? && EvalMessageRequirement(l.value, m) == EvalMessageRequirement(r.value, m)
    case And(l, r) =>
      l.Some? && r.Some? && EvalMessageRequirement(l.value, m) && EvalMessageRequirement(r.value, m)
    case Or(l, r) =>
      l.Some? && r.Some? && (EvalMessageRequirement(l.value, m) || EvalMessageRequirement(r.value, m))
    case AllOf(ts) => ts != [] && forall u | u in ts :: EvalMessageRequirement(u, m)
    case AnyOf(ts) => exists u | u in ts :: EvalMessageRequirement(u, m)
    case EndorsementLeaf(_) => false
    case MessageLeaf(c) => c.Some? && EvalMessage(c.value, m)
  }
}
