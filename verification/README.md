# Remote Socket Protocol: a verified model of its stateful core

The Remote Socket Protocol (RSP) connects nodes that are known by the hash of their public key. This project models the parts of it whose correctness is decided by branching, recursion and long-lived state, and proves what they are for:

- **AES key negotiation** between any number of nodes: `AesNegotiation` (one node's operations as functions), `RspNode` (the object that updates its two maps in place), `AesProtocol` (all nodes and the messages in flight, as a transition system) and `AesOutcomes` (what each operation comes to), `AesKeys`, `AesTheorems`, `AesResponder` (results over whole runs), `AesScenarios` (concrete runs).
- **The requirement-tree language (ERD)**: `ErdTree` (syntax and what the evaluators compute), `ErdEvaluator` (the evaluators with their loops), `ErdMeaning` (the laws of the connectives and what each leaf looks at), `ErdReduce` (constant folder and partial evaluator), `ErdEquality` (what it makes of requirement-level `EQ`).
- **ERD text**: `ErdText` (what is printed and what is accepted, as functions), `ErdPrinter` and `ErdParser` (the appending printers and the parser with its cursor), `ErdRoundTrip`, `ErdLocality`, `ErdSplice`, `ErdImage`, `ErdReferences`, `ErdShorthand`, `ErdLexemes` (results), `MessageRules` (rule files with `let` declarations) and `RuleLines` (what their macros, comments and declarations mean).
- **The identity-resolution queue**: `IdentityResolution`, a state machine over its lock regions and callbacks, and the queue object; `IdentityOrder`, the order of arrival over whole runs.
- **The identity cache**: `IdentityCache`. **The log subscription manager**: `LogSubscriptions`.
- **Resource queries**: `ResourceQuery` (grammar, printer, round trip), `QueryParser` (lexer and parser objects), `QueryWords` (what the words and their nesting mean), `QueryAnswer` (evaluation and the answer loop), `QueryReply` (what a reply holds).
- **The mutual identity exchange**: `IdentityExchange` (one exchange), `IdentityAuthentication` (any number of them, and what completing one proves). **The endorsement binary codec**: `EndorsementCodec`.

`Common` holds shared types. `dafny verify dfyconfig.toml` checks everything.

## How the model relates to the code

- Code that changes things step by step is a class or a method with loops, proved equal to a function on values; the results are proved about those functions. Pure recursion in the code is a function here.
- Where the code throws, a parse yields `Err` or `None` and a method returns `None` or `false`; message texts are not modelled.
- Cryptography, randomness, the network and clocks are inputs. ECDH is any function with `agree(a, publicKey(b)) == agree(b, publicKey(a))`; key ids and ephemeral keys are fresh or arbitrary; every step takes the time it reads. Times are whole milliseconds. SHA-256 is any function; `KeyMaterialBinds`, `KeyIffSession` and `SecretDecidesKey` take it to have no collisions, `KeyMaterialLayout` and `InstalledKeyLayout` ask nothing of it.
- Iteration over an ordered map is iteration in some order, so results hold for any order.
- Integer widths are written out where they matter: the 64-bit digit accumulator and 32-bit enum truncation of the ERD parser, `stoul` and the 32-bit literal of queries, the 32-bit sizes of the endorsement codec and of its buffer.
- The output queue is unbounded by default (common/message_queue/mq.hpp:77), so a push succeeds.

## Where a promise fails, and exactly when it holds

- A requirement-level `EQ` is tried against one endorsement at a time, with message leaves read as false. `EqNotExact` is a concrete tree and endorsement on which the reducer grants what the tree does not say. `ReduceVerdict` describes what the reducer grants and refuses on every tree, by its structure. `TreeExactIff` says exactly when it is right, on every tree, and `EqExactIff` gives the condition at a node whose sides hold no unfolded `EQ` in simpler terms. `ErrsOneWay` says in which direction it can go wrong, and `NestedEqWithholds` shows that with one unfolded `EQ` below another it can also go the other way. The other results on the reducer hold for trees in which every requirement-level `EQ` folds to a constant, in particular trees without one.
- A responder can be left alone with a key. `AloneIffRefused` shows that in a run that loses nothing, with neither the reply nor a clearing message in flight, this is so if and only if the reply was refused with a code that clears nothing at the responder (`KEY_LIMIT_REACHED`, or `INVALID_REQUEST` for a key that does not decode); `OrphanedResponder` is a concrete run.
- Both ends of a negotiation end up with the same key lifetime if and only if their configured ranges overlap (`LifetimeAgreementIff`, `LifetimeAgreement`); `LifetimesDiffer` is a concrete run where they do not.
- Field sizes below 2^32 do not suffice for the endorsement codec: the buffer that holds the encoding cuts its own size to 32 bits. `DecodeEncode` has the exact condition, `FieldSizesDoNotSuffice` a concrete endorsement.
- Not every tree survives printing; `UnprintableIsLost` is one that does not. `RoundTripIff` shows that the printable ones are exactly those that do, leaving aside the least 64-bit integer, whose negation the C++ parser leaves undefined.
- A reference does not always stand for the printed tree of its variable. `SubstitutionIff` shows that a text that parses means the same with its references written out if and only if every variable it refers to is printable, or it is nothing but a reference to a blank variable; `SubstitutionFails` is a text and a variable where it does not. This concerns resolvers in general: in rule files, where macros expand to node ids, no variable is blank and every one is printable (`VariablesPrintable`), so rules and variables always are what their lines say with the references written out. The least 64-bit integer is left aside here too.
- A completed identity exchange shows that the owner of the proved id answered this side's own challenge, provided that signatures of that owner's key cannot be forged and no other key with its id is in use; if the id is not the side's own, it was not answered by this side's node (`CompletionAuthenticates`). That condition is needed (`OwnAnswerReached`: a side that reads back its own two messages completes). And completion does not say whom the answering exchange faces: in `PeerMayFaceAnother` one side knows a second, which knows a third.

## Model

| member | source | states |
|---|---|---|
| AesNegotiation.KeyMaterialSymmetric | common/node.cpp:137-157 | both ends of a pair derive the same key from one secret and key id, whichever end names itself first |
| AesKeys.KeyMaterialLayout | common/node.cpp:137-157 | key material is the hash of the secret, the 16-byte key id, the smaller and the larger node id in byte order, and the text `rsp-aes-negotiation-v1`, each at its place and nothing else |
| AesKeys.KeyMaterialBinds | common/node.cpp:137-157 | under a hash without collisions, equal key material means equal secret, equal key id and the same two nodes |
| AesNegotiation.SanitizeSane | common/node.cpp:536-552 | sanitised limits are consistent, and consistent limits are left alone |
| AesNegotiation.BeginKeeps | common/node.cpp:559-616 | beginning a negotiation keeps pending and active peers disjoint and the pending map within its limit |
| AesNegotiation.HandleKeeps | common/node.cpp:738-1018 | so does handling any message, accepted or refused, for both maps |
| AesNegotiation.LocalDropKeeps | common/node.cpp:618-641 | so does dropping a key locally |
| AesNegotiation.SweepExact | common/node.cpp:705-736 | after a sweep exactly the unexpired entries remain, and exactly one notification went out per swept active key |
| AesNegotiation.RefusedReplyForgets | common/node.cpp:886-972 | a refused reply installs nothing and changes no other entry |
| AesNegotiation.DropOrErrorForgets | common/node.cpp:738-770 | errors and drop notifications only remove entries, and are answered by nothing but an error for the same key id |
| AesNegotiation.LifetimeAgreementIff | common/node.cpp:97-100 | the three clamps of an exchange leave both sides with one lifetime, inside both ranges, if and only if the ranges overlap |
| AesOutcomes.LifetimeChosen | common/node.cpp:97-100 | no wish is the default, a wish in range is granted, any other is moved to the nearest bound |
| AesOutcomes.BeginOutcome | common/node.cpp:559-616 | a negotiation begins exactly with another node, none pending or active with it, and room for one more of each; the request carries what the new entry remembers |
| AesOutcomes.RequestOutcome | common/node.cpp:796-885 | a request is always answered; it is granted exactly when it is well formed, of AES-256, from a node with nothing pending or active, with room, and its key decodes and agrees; the new entry and the reply agree on key id and lifetime |
| AesOutcomes.RequestErrorMeans | common/node.cpp:796-885 | what each error code tells the asking node about the request and this node's state |
| AesOutcomes.ReplyOutcome | common/node.cpp:886-972 | a reply is accepted, in silence, exactly if it answers the negotiation pending with its sender, finds room, and its key decodes and agrees with that negotiation's ephemeral key; the negotiation is then over |
| AesOutcomes.ReplyErrorMeans | common/node.cpp:886-972 | what each error code tells the answering node, and that the negotiation is given up only for lack of room or a key that does not agree |
| AesOutcomes.DropOutcome | common/node.cpp:973-1012 | a drop removes the named key or negotiation with its sender and nothing else; the sender hears back, with the right code, unless the key was active |
| AesOutcomes.ErrorOutcome | common/node.cpp:738-770 | an error is never answered; it ends the negotiation it names, and the key it names only with the three codes that say the other side has no such key |
| AesOutcomes.LocalDropOutcome | common/node.cpp:618-641 | a local drop leaves nothing with the peer and notifies it, with the given reason or `local_drop`, exactly if a key was active |
| RspNode.Node.SetAesNegotiationLimits | common/node.cpp:536-552 | the step-by-step sanitising computes the sanitised limits and touches nothing else |
| RspNode.Node.ProcessExpiredAesKeys | common/node.cpp:705-736 | erasing while iterating leaves the swept state and queues exactly the sweep's notifications |
| RspNode.Node.EraseActiveExpired | common/node.cpp:711-721 | the active-key loop removes exactly the expired keys and collects one notification for each |
| RspNode.Node.ErasePendingExpired | common/node.cpp:723-730 | the pending loop removes exactly the expired negotiations |
| RspNode.Node.BeginAesKeyNegotiation | common/node.cpp:559-616 | a node refuses itself untouched; otherwise it sweeps, begins as specified, and queues the sweep's drops and the request |
| RspNode.Node.RegisterPending | common/node.cpp:566-608 | the locked region decides and registers as specified |
| RspNode.Node.DropAesKey | common/node.cpp:618-641 | sweep, then the specified drop, with its notification queued exactly when a key was held |
| RspNode.Node.HandleNegotiationError | common/node.cpp:738-770 | which entries an error removes |
| RspNode.Node.HandleNegotiationRequest | common/node.cpp:796-885 | every refusal in order, or the installed key and its reply |
| RspNode.Node.HandleNegotiationReply | common/node.cpp:886-972 | every refusal, which of them abandon the negotiation, or the installed key |
| RspNode.Node.HandleDropNotification | common/node.cpp:973-1012 | which entries a drop removes and which error answers it |
| RspNode.Node.HandleAesNegotiationMessage | common/node.cpp:772-1018 | sweep, dispatch and answer together do what the specification of one delivery says |
| AesProtocol.NextInv | common/node.cpp:559-1018 | every step of the system keeps the invariant that ties pending entries, active keys and messages in flight to the history of their key id |
| AesProtocol.RunInv | common/node.cpp:559-1018 | the invariant holds after every run |
| AesProtocol.KeyAgreement | common/node.cpp:772-1018 | in every run with reordering and loss, two nodes holding active keys for each other under one key id hold the same key material |
| AesKeys.InstalledKeyLayout | common/node.cpp:772-1018 | in every run an active key is the hash of the secret agreed in its session, its key id and the ids of its two nodes, laid out as above |
| AesKeys.KeyIffSession | common/node.cpp:772-1018 | in every run any two active keys, wherever held, are equal if and only if their key ids are, and then belong to the same two nodes |
| AesKeys.SecretDecidesKey | common/node.cpp:772-1018 | in every run, keys of sessions that agreed on different secrets differ |
| AesScenarios.HandshakeCompletes | common/node.cpp:559-972 | a concrete begin, request and reply after which both ends hold the key, as the key-agreement theorem assumes |
| AesTheorems.AlwaysExclusive | common/node.cpp:559-1018 | in every run no peer is both pending and active |
| AesTheorems.StepWithinLimits | common/node.cpp:559-1018 | every step that adds an entry leaves its map within the limit then in force |
| AesTheorems.AlwaysBounded | common/node.cpp:536-616 | while limits stay fixed neither map ever exceeds its limit |
| AesTheorems.NoOrphanedInitiator | common/node.cpp:618-1018 | in every lossless run, however reordered, an initiator that holds or is about to hold a key has a responder that holds it or a drop on its way |
| AesResponder.NextAttended | common/node.cpp:618-1018 | every step but a loss keeps the invariant behind it: a responder's key is attended to unless its reply was so refused, and a message that silences a key means that no request for it is left and that a responder sending it does not hold it |
| AesResponder.NoOrphanedResponder | common/node.cpp:738-1018 | in every lossless run, however reordered, a responder that holds a key has an initiator that holds it, or the reply or a message clearing it on its way, or its reply was refused with a code that clears nothing |
| AesResponder.RefusedNeverHolds | common/node.cpp:886-972 | in every run, lossy or not, an initiator that refused the reply that way never holds the key |
| AesResponder.AloneIffRefused | common/node.cpp:738-1018 | in every lossless run, a responder that holds a key with no reply or clearing message in flight is alone with it if and only if its reply was so refused |
| AesScenarios.OrphanedResponder | common/node.cpp:760-767 | a concrete lossless run that ends with nothing in flight, a responder holding a key, and an initiator neither holding nor awaiting it |
| AesTheorems.LifetimeAgreement | common/node.cpp:587-604 | in every run with fixed limits the two ends keep the key equally long if and only if their ranges overlap, and then within both |
| AesScenarios.LifetimesDiffer | common/node.cpp:587-604 | a concrete run with disjoint ranges after which the key lives 10 ms at one end and 50 ms at the other |
| ErdEvaluator.EvaluateEndorsementTree | common/endorsement/endorsement.cpp:234-288 | the evaluator with its early exits computes the value of an endorsement predicate |
| ErdEvaluator.EvaluateRequirementTree | common/endorsement/endorsement.cpp:290-339 | the same for a requirement tried against one endorsement, message leaves not met |
| ErdEvaluator.EvaluateMessageTree | common/endorsement/endorsement.cpp:341-410 | the same for a message predicate, including the scan of repeated fields |
| ErdEvaluator.EvaluateMessageRequirementTree | common/endorsement/endorsement.cpp:412-462 | the same for a requirement tried against the message, endorsement leaves not met |
| ErdEvaluator.AnyEndorsementMatchesTree | common/endorsement/endorsement.cpp:621-630 | true exactly when some presented endorsement matches the whole requirement |
| ErdMeaning.DependsOnMentioned | common/endorsement/endorsement.cpp:234-288 | an endorsement predicate depends on an endorsement's type, value or service only if it mentions it, and on nothing else |
| ErdMeaning.LeafSelects | common/endorsement/endorsement.cpp:234-288 | each leaf holds of exactly the endorsements that putting its literal in its own field leaves unchanged; a leaf without id holds of none |
| ErdMeaning.AlikeIff | common/endorsement/endorsement.cpp:234-288 | two endorsements satisfy the same predicates if and only if they have the same type, value and endorsement service |
| ErdMeaning.SameViewIff | common/endorsement/endorsement.cpp:341-410 | two messages satisfy the same predicates if and only if they agree on every comparison, every presence and every search of a repeated field |
| ErdMeaning.MessageLeafAsks | common/endorsement/endorsement.cpp:341-410 | which observation each message leaf makes, with which arguments, and that it makes no other |
| ErdMeaning.IncompleteLeafFails | common/endorsement/endorsement.cpp:341-410 | a message leaf with a part missing never holds |
| ErdMeaning.EndorsementNegation | common/endorsement/endorsement.cpp:234-288 | endorsement predicates: EQ with FALSE negates, EQ with TRUE does nothing |
| ErdMeaning.EndorsementDuality | common/endorsement/endorsement.cpp:234-288 | endorsement predicates: AND and OR are dual under that negation |
| ErdMeaning.EndorsementUnits | common/endorsement/endorsement.cpp:234-288 | endorsement predicates: AND and OR have TRUE and FALSE as unit and zero on both sides; a tree with no node never holds |
| ErdMeaning.EndorsementSides | common/endorsement/endorsement.cpp:234-288 | endorsement predicates: EQ, AND and OR with a side missing never hold |
| ErdMeaning.EndorsementAllOf | common/endorsement/endorsement.cpp:234-288 | endorsement predicates: ALLOF of more terms is AND of one and ALLOF of the rest |
| ErdMeaning.EndorsementAnyOf | common/endorsement/endorsement.cpp:234-288 | endorsement predicates: ANYOF of more terms is OR of one and ANYOF of the rest |
| ErdMeaning.EndorsementSingle | common/endorsement/endorsement.cpp:234-288 | endorsement predicates: of one term ALLOF and ANYOF are that term, of none they never hold |
| ErdMeaning.MessageNegation | common/endorsement/endorsement.cpp:341-410 | message predicates: EQ with FALSE negates, EQ with TRUE does nothing |
| ErdMeaning.MessageDuality | common/endorsement/endorsement.cpp:341-410 | message predicates: AND and OR are dual under that negation |
| ErdMeaning.MessageUnits | common/endorsement/endorsement.cpp:341-410 | message predicates: AND and OR have TRUE and FALSE as unit and zero on both sides; a tree with no node never holds |
| ErdMeaning.MessageSides | common/endorsement/endorsement.cpp:341-410 | message predicates: EQ, AND and OR with a side missing never hold |
| ErdMeaning.MessageAllOf | common/endorsement/endorsement.cpp:341-410 | message predicates: ALLOF of more terms is AND of one and ALLOF of the rest |
| ErdMeaning.MessageAnyOf | common/endorsement/endorsement.cpp:341-410 | message predicates: ANYOF of more terms is OR of one and ANYOF of the rest |
| ErdMeaning.MessageSingle | common/endorsement/endorsement.cpp:341-410 | message predicates: of one term ALLOF and ANYOF are that term, of none they never hold |
| ErdMeaning.RequirementNegation | common/endorsement/endorsement.cpp:290-339 | requirements tried against one endorsement: EQ with FALSE negates, EQ with TRUE does nothing |
| ErdMeaning.RequirementDuality | common/endorsement/endorsement.cpp:290-339 | requirements tried against one endorsement: AND and OR are dual under that negation |
| ErdMeaning.RequirementUnits | common/endorsement/endorsement.cpp:290-339 | requirements tried against one endorsement: AND and OR have TRUE and FALSE as unit and zero on both sides; a tree with no node never holds |
| ErdMeaning.RequirementSides | common/endorsement/endorsement.cpp:290-339 | requirements tried against one endorsement: EQ, AND and OR with a side missing never hold |
| ErdMeaning.RequirementAllOf | common/endorsement/endorsement.cpp:290-339 | requirements tried against one endorsement: ALLOF of more terms is AND of one and ALLOF of the rest |
| ErdMeaning.RequirementAnyOf | common/endorsement/endorsement.cpp:290-339 | requirements tried against one endorsement: ANYOF of more terms is OR of one and ANYOF of the rest |
| ErdMeaning.RequirementSingle | common/endorsement/endorsement.cpp:290-339 | requirements tried against one endorsement: of one term ALLOF and ANYOF are that term, of none they never hold |
| ErdMeaning.MessageRequirementNegation | common/endorsement/endorsement.cpp:412-462 | requirements tried against the message: EQ with FALSE negates, EQ with TRUE does nothing |
| ErdMeaning.MessageRequirementDuality | common/endorsement/endorsement.cpp:412-462 | requirements tried against the message: AND and OR are dual under that negation |
| ErdMeaning.MessageRequirementUnits | common/endorsement/endorsement.cpp:412-462 | requirements tried against the message: AND and OR have TRUE and FALSE as unit and zero on both sides; a tree with no node never holds |
| ErdMeaning.MessageRequirementSides | common/endorsement/endorsement.cpp:412-462 | requirements tried against the message: EQ, AND and OR with a side missing never hold |
| ErdMeaning.MessageRequirementAllOf | common/endorsement/endorsement.cpp:412-462 | requirements tried against the message: ALLOF of more terms is AND of one and ALLOF of the rest |
| ErdMeaning.MessageRequirementAnyOf | common/endorsement/endorsement.cpp:412-462 | requirements tried against the message: ANYOF of more terms is OR of one and ANYOF of the rest |
| ErdMeaning.MessageRequirementSingle | common/endorsement/endorsement.cpp:412-462 | requirements tried against the message: of one term ALLOF and ANYOF are that term, of none they never hold |
| ErdMeaning.LiftedMeaning | common/endorsement/endorsement.cpp:290-339 | ENDORSEMENT(...) distributes over the connectives of its predicate |
| ErdMeaning.EndorsementLeafMeaning | common/endorsement/endorsement.cpp:290-339 | ENDORSEMENT(...) holds of an endorsement exactly when its predicate does |
| ErdMeaning.MessageLeavesFalse | common/endorsement/endorsement.cpp:290-339 | an endorsement is tried as if every message leaf of the requirement were FALSE |
| ErdMeaning.EndorsementLeavesFalse | common/endorsement/endorsement.cpp:412-462 | the message is tried as if every endorsement leaf were FALSE |
| ErdMeaning.MessageLeafMeaning | common/endorsement/endorsement.cpp:412-462 | MESSAGE(...) holds of the message exactly when its predicate does |
| ErdReduce.ConstantFoldingSound | common/endorsement/endorsement.cpp:502-600 | a folded value is what both evaluators give for every endorsement and message, on every tree including EQ and malformed nodes |
| ErdReduce.MatchSatisfies | common/endorsement/endorsement.cpp:621-630 | one endorsement matching a whole tree satisfies the direct semantics |
| ErdReduce.ReduceExact | common/endorsement/endorsement.cpp:656-815 | reduction yields the unset tree if and only if the direct semantics holds |
| ErdReduce.ReduceMeaning | common/endorsement/endorsement.cpp:656-815 | residuals compose: judging the reduced tree by later evidence is judging the original by all evidence |
| ErdReduce.StagedReductionExact | common/endorsement/endorsement.cpp:955-970 | reducing in any number of stages reaches the unset tree exactly when reducing once with everything does |
| ErdReduce.ReduceIdempotent | common/endorsement/endorsement.cpp:656-815 | a reduced tree reduces to itself under the same inputs |
| ErdReduce.ReduceIsResidual | common/endorsement/endorsement.cpp:656-815 | what is left after reduction is a normal form: no settled leaf, no constant below the root, no one-term list |
| ErdReduce.ReduceNeverGrows | common/endorsement/endorsement.cpp:656-815 | on all trees the result has no more nodes than the input |
| ErdEquality.EqNotExact | common/endorsement/endorsement.cpp:669-703 | a concrete EQ tree that an unrelated endorsement satisfies |
| ErdEquality.ReduceVerdict | common/endorsement/endorsement.cpp:656-815 | on every tree, EQ and malformed nodes included, reduction yields the unset tree or the false tree exactly where the structural verdict grants or refuses |
| ErdEquality.EqExactIff | common/endorsement/endorsement.cpp:669-703 | an unfolded EQ over sides whose own EQs fold is decided correctly if and only if a condition on what the two sides and the evidence say holds |
| ErdEquality.TreeExactIff | common/endorsement/endorsement.cpp:656-815 | on every tree, EQ nodes anywhere and nested, the reducer is exact if and only if its EQ nodes leave the verdict right |
| ErdEquality.ErrsOneWay | common/endorsement/endorsement.cpp:656-815 | with no endorsements it grants nothing unmet, on every tree; with some it withholds nothing met, where no unfolded EQ stands below another |
| ErdEquality.NestedEqWithholds | common/endorsement/endorsement.cpp:669-703 | that restriction is needed: nested EQs, met, that one endorsement makes the reducer withhold |
| ErdEquality.DecidedExact | common/endorsement/endorsement.cpp:656-815 | the reducer is exact wherever every single EQ node meets its condition |
| ErdReduce.GetConstantTreeValue | common/endorsement/endorsement.cpp:502-600 | the folder with its term scans computes the folded value |
| ErdReduce.ReduceRequirementTree | common/endorsement/endorsement.cpp:656-815 | the reducer computes the specified reduction |
| ErdReduce.ReduceAllOfTerms | common/endorsement/endorsement.cpp:746-775 | the ALLOF loop with its early exit computes the combined residual |
| ErdReduce.ReduceAnyOfTerms | common/endorsement/endorsement.cpp:776-805 | the ANYOF loop with its early exit computes the combined residual |
| ErdPrinter.AppendHex | common/endorsement/endorsement_text.cpp:67-75 | appends two lower-case digits per byte |
| ErdPrinter.AppendUuid | common/endorsement/endorsement_text.cpp:20-40 | appends the 8-4-4-4-12 form of section 4 of RFC 9562 |
| ErdPrinter.AppendFieldPath | common/endorsement/endorsement_text.cpp:203-208 | appends the segments joined by dots |
| ErdPrinter.AppendFieldValue | common/endorsement/endorsement_text.cpp:210-239 | appends each kind of literal as specified |
| ErdPrinter.AppendEndTree | common/endorsement/endorsement_text.cpp:134-175 | appends the text of an endorsement predicate, whatever follows |
| ErdPrinter.AppendMessageTree | common/endorsement/endorsement_text.cpp:241-288 | appends the text of a message predicate, whatever follows |
| ErdPrinter.AppendTree | common/endorsement/endorsement_text.cpp:290-326 | appends the text of a requirement tree, whatever follows |
| ErdPrinter.Print | common/endorsement/endorsement_text.cpp:972-979 | computes the printed form |
| ErdParser.Parser.SkipWhitespace | common/endorsement/endorsement_text.cpp:339-343 | leaves the cursor after the white space |
| ErdParser.Parser.ExpectChar | common/endorsement/endorsement_text.cpp:349-356 | succeeds exactly on the expected character after white space |
| ErdParser.Parser.IsUuidHere | common/endorsement/endorsement_text.cpp:381-393 | recognises exactly five dash-separated groups of hex digits |
| ErdParser.Parser.UuidBytes | common/endorsement/endorsement_text.cpp:395-402 | reads the 16 bytes of a UUID |
| ErdParser.Parser.HexBytes | common/endorsement/endorsement_text.cpp:404-416 | reads pairs of hex digits, failing on an odd one |
| ErdParser.Parser.FieldPathHere | common/endorsement/endorsement_text.cpp:569-597 | reads a dotted path, failing on an empty segment |
| ErdParser.Parser.FieldValueHere | common/endorsement/endorsement_text.cpp:600-686 | reads a typed literal, trying the kinds in order |
| ErdParser.Parser.NumberHere | common/endorsement/endorsement_text.cpp:658-683 | reads a signed or u-suffixed number through a wrapping accumulator |
| ErdParser.Parser.EnumHere | common/endorsement/endorsement_text.cpp:642-656 | reads an enum number and keeps its low 32 bits as signed |
| ErdParser.Parser.EndTreeHere | common/endorsement/endorsement_text.cpp:484-553 | parses an endorsement predicate as specified, cursor included |
| ErdParser.Parser.MessageTreeHere | common/endorsement/endorsement_text.cpp:709-809 | parses a message predicate as specified, cursor included |
| ErdParser.Parser.ReferenceHere | common/endorsement/endorsement_text.cpp:815-857 | a reference yields its variable's tree and fails on bad, unknown or forbidden names |
| ErdParser.Parser.BinaryArgs | common/endorsement/endorsement_text.cpp:419-428 | parses a parenthesised pair of trees |
| ErdParser.Parser.NaryArgs | common/endorsement/endorsement_text.cpp:430-449 | parses a parenthesised, possibly empty list of trees |
| ErdParser.Parser.TreeHere | common/endorsement/endorsement_text.cpp:811-965 | parses a requirement tree as specified, cursor included |
| ErdParser.Parse | common/endorsement/endorsement_text.cpp:981-1010 | a whole text parses to a tree, to the unset tree if blank, or not at all |
| ErdRoundTrip.UuidRoundTrip | common/endorsement/endorsement_text.cpp:20-65 | a printed UUID is read back, whatever follows |
| ErdRoundTrip.ValueRoundTrip | common/endorsement/endorsement_text.cpp:210-239 | every printable literal is read back as the same kind and value |
| ErdRoundTrip.EndRoundTrip | common/endorsement/endorsement_text.cpp:134-175 | printing then parsing an endorsement predicate gives it back |
| ErdRoundTrip.MesRoundTrip | common/endorsement/endorsement_text.cpp:241-288 | printing then parsing a message predicate gives it back |
| ErdRoundTrip.TreeRoundTrip | common/endorsement/endorsement_text.cpp:290-326 | printing then parsing a requirement tree gives it back, whatever follows and whatever variables are in scope |
| ErdRoundTrip.StringRoundTrip | common/endorsement/endorsement_text.cpp:972-1010 | fromString undoes toString on every printable tree and on the unset tree |
| ErdLocality.EndLocal | common/endorsement/endorsement_text.cpp:484-553 | parsing an endorsement predicate does not depend on the text after it |
| ErdLocality.MesLocal | common/endorsement/endorsement_text.cpp:709-809 | parsing a message predicate does not depend on the text after it |
| ErdLocality.LeafLocal | common/endorsement/endorsement_text.cpp:887-950 | parsing a leaf of a requirement tree does not depend on the text after it |
| ErdSplice.SpliceTreeParses | common/endorsement/endorsement_text.cpp:811-857 | a tree whose references were replaced by printed trees parses, without a resolver, to the tree the references resolve to |
| ErdSplice.ResolverIdle | common/endorsement/endorsement_text.cpp:811-857 | a text without references parses the same with any resolver |
| ErdSplice.SplicingIsSubstitution | common/endorsement/endorsement_text.cpp:996-1010 | a text with references means what it means with the printed trees written in, also when it does not parse, whenever the variables it refers to are printable |
| ErdImage.ParsedIsPrintable | common/endorsement/endorsement_text.cpp:981-1010 | every tree the parser returns is printable, unless blank or holding the least 64-bit integer |
| ErdImage.NormalForm | common/endorsement/endorsement_text.cpp:972-1010 | printing a parsed tree and parsing it again changes nothing |
| ErdImage.RoundTripIff | common/endorsement/endorsement_text.cpp:972-1010 | a tree comes back from its own text if and only if it is printable or unset |
| ErdImage.UnprintableIsLost | common/endorsement/endorsement_text.cpp:972-1010 | a concrete tree that does not come back from its own text |
| ErdReferences.SubstitutionIff | common/endorsement/endorsement_text.cpp:996-1010 | for a text that parses, references are substitution if and only if every variable referred to is printable or the text is one reference to a blank variable |
| ErdReferences.SubstitutionFails | common/endorsement/endorsement_text.cpp:996-1010 | a conjunction with a blank variable, which is not what its written-out text says |
| ErdReferences.RefsInTree | common/endorsement/endorsement_text.cpp:811-857 | a parsed tree holds every tree it refers to, so they are printable if it is |
| ErdShorthand.MessageDestination | common/endorsement/endorsement_text.cpp:741-752 | inside MESSAGE(...), DESTINATION(id) is read as FIELD_EQ of `destination.value` with the id's bytes |
| ErdShorthand.MessageSource | common/endorsement/endorsement_text.cpp:753-765 | inside MESSAGE(...), SOURCE(id) is read as FIELD_EQ of `signature.signer.value` with the id's bytes |
| ErdShorthand.DestinationShorthand | common/endorsement/endorsement_text.cpp:927-938 | at a requirement position DESTINATION(id) is read as that comparison inside MESSAGE(...) |
| ErdShorthand.SourceShorthand | common/endorsement/endorsement_text.cpp:939-951 | so is SOURCE(id) |
| ErdShorthand.BareTests | common/endorsement/endorsement_text.cpp:895-918 | at a requirement position ENDORSEMENT_TYPE, ENDORSEMENT_VALUE and ENDORSEMENT_SIGNER are read as the same predicate inside ENDORSEMENT(...) |
| ErdShorthand.EndAndWord | common/endorsement/endorsement_text.cpp:488-493 | AND(l, r) of endorsement predicates, written with that word, is their conjunction node, left first |
| ErdShorthand.EndOrWord | common/endorsement/endorsement_text.cpp:494-499 | OR(l, r) likewise |
| ErdShorthand.EndEqualsWord | common/endorsement/endorsement_text.cpp:500-505 | EQ(l, r) likewise |
| ErdShorthand.EndListWords | common/endorsement/endorsement_text.cpp:506-515 | ALLOF and ANYOF of endorsement predicates, by their words |
| ErdShorthand.EndLeafWords | common/endorsement/endorsement_text.cpp:516-540 | the three endorsement leaves, by their words |
| ErdShorthand.MesAndWord | common/endorsement/endorsement_text.cpp:713-718 | AND(l, r) of message predicates, left first |
| ErdShorthand.MesOrWord | common/endorsement/endorsement_text.cpp:719-724 | OR(l, r) likewise |
| ErdShorthand.MesEqualsWord | common/endorsement/endorsement_text.cpp:725-730 | EQ(l, r) likewise |
| ErdShorthand.MesListWords | common/endorsement/endorsement_text.cpp:731-740 | ALLOF and ANYOF of message predicates, by their words |
| ErdShorthand.MesLeafWords | common/endorsement/endorsement_text.cpp:766-795 | FIELD_EQ, FIELD_EXISTS and FIELD_CONTAINS, by their words and the order of their arguments |
| ErdShorthand.TreeAndWord | common/endorsement/endorsement_text.cpp:859-864 | AND(l, r) of requirements, left first |
| ErdShorthand.TreeOrWord | common/endorsement/endorsement_text.cpp:865-870 | OR(l, r) likewise |
| ErdShorthand.TreeEqualsWord | common/endorsement/endorsement_text.cpp:871-876 | EQ(l, r) likewise |
| ErdShorthand.TreeListWords | common/endorsement/endorsement_text.cpp:877-886 | ALLOF and ANYOF of requirements, by their words |
| ErdShorthand.TreeLeafWords | common/endorsement/endorsement_text.cpp:887-926 | ENDORSEMENT(...) and MESSAGE(...), by their words |
| ErdShorthand.BytesAndStringTexts | common/endorsement/endorsement_text.cpp:210-239 | how bytes and strings are printed, on examples |
| ErdShorthand.NumberTexts | common/endorsement/endorsement_text.cpp:210-239 | how signed, unsigned and enum numbers and flags are printed, on examples |
| ErdShorthand.IdText | common/endorsement/endorsement_text.cpp:20-40 | how an id is printed, on an example |
| ErdLexemes.UnsignedMeans | common/endorsement/endorsement_text.cpp:668-676 | a number of any length with a trailing u or U stands for its value modulo 2^64 |
| ErdLexemes.SignedMeans | common/endorsement/endorsement_text.cpp:668-680 | without one it stands for the 64-bit signed number congruent to it |
| ErdLexemes.NegativeMeans | common/endorsement/endorsement_text.cpp:658-680 | after a minus sign, for the one congruent to its negation; a u then ends the number |
| ErdLexemes.EnumMeans | common/endorsement/endorsement_text.cpp:642-656 | an enum number is the 32-bit signed number congruent to what is written, and 0 without digits |
| ErdLexemes.ConstantsMean | common/endorsement/endorsement_text.cpp:952-961 | TRUE and FALSE may be written in any mixture of cases in all three grammars, and nothing has to end them |
| ErdLexemes.FlagMeans | common/endorsement/endorsement_text.cpp:630-639 | so may a flag, but a letter or digit right after it is refused |
| ErdLexemes.HexIgnoresCase | common/endorsement/endorsement_text.cpp:373-416 | hex digits of either case write the same bytes |
| ErdLexemes.DotsMean | common/endorsement/endorsement_text.cpp:569-597 | a field path is its segments between dots; a dot may close it, but none may follow an empty segment, and a path has a segment |
| MessageRules.Trimmed | common/config/message_rules.cpp:16-22 | removes white space at both ends |
| MessageRules.TryParseLet | common/config/message_rules.cpp:50-97 | splits a line into no declaration, a malformed one, or a name and an expression |
| MessageRules.LetRoundTrip | common/config/message_rules.cpp:50-97 | a well-formed declaration is read back, whatever white space separates its parts |
| RuleLines.LetIff | common/config/message_rules.cpp:50-97 | a line declares this variable with this expression if and only if it is `let`, white space, the name, `=` and the expression, and is taken for a declaration exactly when it begins with `let` and white space |
| RuleLines.IdentifierIff | common/config/message_rules.cpp:31-45 | a name is a letter or underscore followed by letters, underscores and digits |
| RuleLines.CommentIff | common/config/message_rules.cpp:24-29 | a line is a comment if and only if, after white space, it is empty or begins with `#` or `//` |
| MessageRules.ReplaceMyNodeId | common/config/message_rules.cpp:104-109 | replaces every occurrence in place and never rescans what it inserted |
| MessageRules.ReplaceFromFiles | common/config/message_rules.cpp:111-124 | replaces every key-file macro, failing on a missing parenthesis or an unreadable file |
| MessageRules.ExpandMacros | common/config/message_rules.cpp:101-127 | both expansions in order |
| RuleLines.NodeIdReplaced | common/config/message_rules.cpp:104-109 | every `MY_NODEID()` becomes this node's id, first to last, and text without one is unchanged |
| RuleLines.FileIdReplaced | common/config/message_rules.cpp:111-124 | every `NODEID_FROM_FILE(path)`, whose path ends at the next parenthesis, becomes the id in that file; an unreadable file refuses the line |
| RuleLines.FileMacroMissing | common/config/message_rules.cpp:111-124 | a macro that is not closed refuses the line, and text without one is unchanged |
| RuleLines.ExpansionOrder | common/config/message_rules.cpp:101-127 | node id macros are expanded first, and file macros in what they leave |
| MessageRules.BuildMessageRulesTree | common/config/message_rules.cpp:129-228 | reads a rule file: comments, single declarations, one rule and nothing after it |
| RuleLines.CommentsIgnored | common/config/message_rules.cpp:152-163 | a comment can stand anywhere in a rule file and changes nothing |
| RuleLines.OnlyCommentsAfterRule | common/config/message_rules.cpp:161-169 | after the rule, anything but a comment makes the file bad |
| MessageRules.VariablesPrintable | common/config/message_rules.cpp:174-202 | no variable of a rule file that loads is blank, and every one is printable, wrapped literals aside |
| MessageRules.ExpandedNotBlank | common/config/message_rules.cpp:101-127 | expanding node id macros never makes a text blank |
| MessageRules.RuleIsSubstitution | common/config/message_rules.cpp:204-228 | the rule's tree is that of the file's rule line, its last entry that is not a comment, with the variables' printed trees written in, parsed without a resolver, whatever other variables hold |
| MessageRules.VariableIsSubstitution | common/config/message_rules.cpp:174-202 | the same for every variable, through any chain of earlier declarations |
| IdentityResolution.NextInv | common/message_queue/mq_signing.cpp:977-1100 | every arrival, resolver step and shutdown keeps the counter, the limits and the one-resolver-per-queue shape |
| IdentityResolution.NextConserves | common/message_queue/mq_signing.cpp:977-1124 | every step conserves every message |
| IdentityResolution.PendingSound | common/message_queue/mq_signing.cpp:977-1100 | in every interleaving the counter is the sum of the queues, both limits hold, and every queue is non-empty with exactly one resolver yet to drain it |
| IdentityResolution.Conservation | common/message_queue/mq_signing.cpp:977-1124 | every copy of every message that arrived is refused, waiting, in delivery, replayed or failed, in exactly one of these places |
| IdentityResolution.FinishedConservation | common/message_queue/mq_signing.cpp:943-965 | once all resolvers finished nothing waits and every message was handed back once |
| IdentityOrder.NextOrdered | common/message_queue/mq_signing.cpp:977-1113 | every step keeps each signer's messages in the order of their arrival, across resolvers and within each |
| IdentityOrder.ArrivalOrderKept | common/message_queue/mq_signing.cpp:977-1113 | in every run and for every signer, what its resolvers handed on and still hold, resolver by resolver, followed by what waits, is exactly what was accepted from it in order of arrival |
| IdentityOrder.HandedOnIsSettled | common/message_queue/mq_signing.cpp:1102-1113 | in every run the messages handed on are exactly those replayed or failed |
| IdentityOrder.RefusedIffOver | common/message_queue/mq_signing.cpp:977-1011 | in every run a message is refused if and only if the queue is stopping or taking it in would break a limit |
| IdentityResolution.ReplayedOnlyIfKnown | common/message_queue/mq_signing.cpp:1032-1077 | in every reachable state a message is replayed only by a resolver that learned the identity, and failed only by one that gave up or whose replay was not taken |
| IdentityResolution.LookupNeverMisses | common/message_queue/mq_signing.cpp:1048-1076 | in every reachable state the wait loop finds its entry, so its early return is never taken and the condition variable outlives the wait |
| IdentityResolution.ShutdownBounded | common/message_queue/mq_signing.cpp:1032-1077 | once stopping, the resolvers take a bounded number of steps whatever the callbacks answer |
| IdentityResolution.ShutdownDrains | common/message_queue/mq_signing.cpp:943-965 | when no resolver can move after stopping, all have finished and every accepted message was replayed or failed |
| IdentityResolution.IdentityQueue.HandleMessage | common/message_queue/mq_signing.cpp:977-1023 | refuses or enqueues as specified, and a refusal leaves no entry behind |
| IdentityResolution.IdentityQueue.DrainSignerMessages | common/message_queue/mq_signing.cpp:1085-1100 | hands out one queue in arrival order and adjusts the counter |
| IdentityResolution.IdentityQueue.BeginStopping | common/message_queue/mq_signing.cpp:946-952 | only the stopping flag changes |
| IdentityResolution.ReplayMessages | common/message_queue/mq_signing.cpp:1102-1113 | every message is replayed or failed, in order, according to the answer it got |
| IdentityCache.RecentMeaning | common/node.cpp:283-338 | the reference list holds exactly the observed ids, each once, by descending last observation |
| IdentityCache.AlwaysAligned | common/node.cpp:283-338 | after any operations the usage list orders the map's keys without repetition |
| IdentityCache.CacheIsRecent | common/node.cpp:283-338 | while the maximum is not raised the cached ids are exactly the most recently observed distinct ids up to it, in that order |
| IdentityCache.CacheIsPrefixOfRecent | common/node.cpp:283-338 | however the maximum changes, the cached ids are an unbroken run of the most recently observed ones |
| IdentityCache.CachedKeyIsLast | common/node.cpp:303-314 | every cached id carries the key it was last observed with |
| IdentityCache.AlwaysSelfKeyed | common/node.cpp:289-330 | every entry's public key hashes to the id it is kept under |
| IdentityCache.NeverOverMaximum | common/node.cpp:283-338 | the cache never exceeds the maximum in force |
| IdentityCache.TakeEachIsApplyAll | common/node.cpp:203-220 | observing a message amounts to observing its acceptable identities in order |
| IdentityCache.ObservedIff | common/node.cpp:203-220 | an identity is observed exactly if its key can be read and is the named sender's, if one is named; it is observed under the id of its key |
| IdentityCache.OthersKept | common/node.cpp:203-220 | a message that names its sender changes no entry but that sender's, except by eviction |
| IdentityCache.LastIsNewest | common/node.cpp:203-220 | the identity taken last is cached with its key and is the most recently used |
| IdentityCache.MaximumKept | common/node.cpp:203-220 | messages never change the maximum |
| IdentityCache.AfterAll | common/node.cpp:203-220 | observing a message continues the run, so what holds of every run holds after it |
| IdentityCache.IdentityStore.DropLeastRecent | common/node.cpp:334-336 | dropping the last entry of an overfull cache does not change what trimming leaves |
| IdentityCache.IdentityStore.TrimToLimit | common/node.cpp:332-338 | the trim loop keeps exactly the most recent entries that fit |
| IdentityCache.IdentityStore.CacheIdentity | common/node.cpp:289-330 | caches exactly identities with a readable key that match a named sender, under the hash of their own key |
| IdentityCache.IdentityStore.ObserveListed | common/node.cpp:211-215 | the loop over the listed identities continues where the message's own identity left off |
| IdentityCache.IdentityStore.ObserveMessage | common/node.cpp:203-220 | the message's own identity first, then the listed ones; reports whether any was cached |
| IdentityCache.IdentityStore.SetMaximumEntries | common/node.cpp:283-287 | sets the maximum and trims |
| LogSubscriptions.AttemptsMatch | common/logging/logging.cpp:327-365 | every delivery attempted is for a live matching subscription, none twice |
| LogSubscriptions.MatchesAttempted | common/logging/logging.cpp:327-365 | every live matching subscription of a subscriber that did not fail was attempted |
| LogSubscriptions.AttemptedIff | common/logging/logging.cpp:278-368 | a record is tried only for subscriptions that are not expired, are for its type and have a filter that holds, and for all of them unless the subscriber refused an earlier one |
| LogSubscriptions.LeftIff | common/logging/logging.cpp:278-368 | what is left are the unexpired subscriptions whose subscriber refused nothing, unchanged |
| LogSubscriptions.FailedAreRefused | common/logging/logging.cpp:358-362 | the failed subscribers are exactly those of the refused attempts |
| LogSubscriptions.AttemptsCounted | common/logging/logging.cpp:327-365 | matched equals delivered plus the number of distinct failed subscribers |
| LogSubscriptions.NotTriedAgain | common/logging/logging.cpp:328-330 | a subscriber that refused is not tried again in the same pass |
| LogSubscriptions.SubscriptionManager.Subscribe | common/logging/logging.cpp:216-241 | what is invalid, and what an accepted request adds |
| LogSubscriptions.SubscriptionManager.Unsubscribe | common/logging/logging.cpp:243-276 | only the subscriber itself removes its subscription; every status exactly |
| LogSubscriptions.SubscriptionManager.RemoveExpired | common/logging/logging.cpp:370-382 | keeps exactly the unexpired subscriptions and counts the rest |
| LogSubscriptions.SubscriptionManager.RemoveAllForNode | common/logging/logging.cpp:384-396 | keeps exactly the other nodes' subscriptions and counts the rest |
| LogSubscriptions.SubscriptionManager.Publish | common/logging/logging.cpp:278-368 | before equals after plus expired plus removed; matched equals delivered plus failed; exactly the live subscriptions of non-failed subscribers remain |
| ResourceQuery.LexRender | resource_manager/resource_manager.cpp:114-216 | lexing rendered tokens gives the tokens, whatever white space separates them |
| QueryWords.SymbolTokens | resource_manager/resource_manager.cpp:118-152 | parentheses, `=` and `!=` are read as themselves, and the end as the end |
| QueryWords.KeywordTokens | resource_manager/resource_manager.cpp:193-215 | a word is AND, OR, NOT or HAS if and only if it is that in upper case, and otherwise a name, as written |
| QueryWords.MixedCase | resource_manager/resource_manager.cpp:193-215 | the keywords in mixed case, on examples |
| QueryWords.QuotedCharacters | resource_manager/resource_manager.cpp:164-183 | a quoted string ends at the next quote that no backslash precedes; a backslash makes the next character plain |
| QueryWords.LiteralTokens | resource_manager/resource_manager.cpp:316-357 | a literal of 2^64 or more is refused, and one below is cut to 32 bits |
| QueryWords.DecimalMore | resource_manager/resource_manager.cpp:316-357 | one more digit makes a number ten times itself plus that digit |
| ResourceQuery.UnaryParses | resource_manager/resource_manager.cpp:295-314 | NOT binds tighter than AND and OR, and parentheses restore weaker expressions |
| ResourceQuery.AndParses | resource_manager/resource_manager.cpp:282-293 | AND chains associate to the left |
| ResourceQuery.OrParses | resource_manager/resource_manager.cpp:269-280 | OR chains associate to the left and give way to AND |
| QueryWords.AndBeforeOr | resource_manager/resource_manager.cpp:269-293 | AND binds tighter than OR on either side of it |
| QueryWords.LeftFirst | resource_manager/resource_manager.cpp:269-293 | equal words group from the left |
| QueryWords.NotFirst | resource_manager/resource_manager.cpp:295-314 | NOT binds tightest, and parentheses override everything |
| ResourceQuery.TokenRoundTrip | resource_manager/resource_manager.cpp:246-358 | the parser undoes the minimal-parenthesis printer on tokens |
| ResourceQuery.QueryRoundTrip | resource_manager/resource_manager.cpp:464-470 | a printed query parses back to the same expression, escapes and numbers included; the empty query selects everything |
| ResourceQuery.FewestParentheses | resource_manager/resource_manager.cpp:246-358 | no token sequence that parses to an expression has fewer parentheses than its printed form |
| ResourceQuery.ParsedIffPrintable | resource_manager/resource_manager.cpp:464-470 | the printable expressions and the empty query are exactly what some text parses to |
| QueryParser.QueryLexer.Next | resource_manager/resource_manager.cpp:118-152 | the next token and the cursor after it, or a failure |
| QueryParser.QueryLexer.ReadString | resource_manager/resource_manager.cpp:164-183 | reads a quoted string with escapes, failing if it does not end |
| QueryParser.QueryLexer.ReadInteger | resource_manager/resource_manager.cpp:185-191 | reads the longest run of digits |
| QueryParser.QueryLexer.ReadIdentifier | resource_manager/resource_manager.cpp:193-215 | reads a name, or a keyword in any case |
| QueryParser.Parser.Consume | resource_manager/resource_manager.cpp:262-267 | moves past the expected token; fails on any other one, without moving, and where the lexer throws |
| QueryParser.Parser.ParseOrChain | resource_manager/resource_manager.cpp:269-280 | the OR loop parses as specified |
| QueryParser.Parser.ParseAndChain | resource_manager/resource_manager.cpp:282-293 | the AND loop parses as specified |
| QueryParser.Parser.ParseUnaryOperand | resource_manager/resource_manager.cpp:295-304 | NOT and its operand |
| QueryParser.Parser.ParsePrimaryOperand | resource_manager/resource_manager.cpp:306-314 | parentheses or a comparison |
| QueryParser.Parser.ParseOneComparison | resource_manager/resource_manager.cpp:316-357 | field, operator and literal; literals beyond 64 bits fail, others keep 32 bits |
| QueryParser.ParseQueryExpression | resource_manager/resource_manager.cpp:464-470 | parses a whole query or fails |
| QueryAnswer.ComparisonMeaning | resource_manager/resource_manager.cpp:389-442 | a comparison selects exactly by whether a known field of the right kind holds the literal |
| QueryAnswer.BooleanLaws | resource_manager/resource_manager.cpp:444-462 | rewriting a query by double negation, De Morgan or a neutral empty query leaves its answer the same, entry by entry |
| QueryAnswer.AndSelectsTwice | resource_manager/resource_manager.cpp:444-462 | AND selects from what one side selected, in order |
| QueryAnswer.NotSelectsTheRest | resource_manager/resource_manager.cpp:444-462 | a query and its negation share out all services, with multiplicity |
| QueryAnswer.SelectedMeaning | resource_manager/resource_manager.cpp:444-462 | selection keeps exactly the satisfying services, with multiplicity |
| QueryAnswer.AnswerQuery | resource_manager/resource_manager.cpp:836-879 | the two nested loops with their early exits return the first matching services up to the limit |
| QueryAnswer.AskedIsAnswered | resource_manager/resource_manager.cpp:836-879 | a printed query is answered by the services that satisfy its expression |
| QueryReply.ReplyHoldsFirstMatches | resource_manager/resource_manager.cpp:836-879 | for every query, advertisements and limit: no reply if the query does not parse; otherwise the reply's entries are the matching services at the first positions, node by node and schema by schema in increasing order, each at most once and none skipped, at most the limit, and all of them if it is 0 |
| IdentityExchange.PerformInitialIdentityExchange | common/message_queue/mq_authn.cpp:62-135 | reads at most two messages and succeeds exactly when both writes succeed and those two complete the exchange; on success and on failure the peer id it leaves and the identity it stores are those proved by what was read |
| IdentityExchange.HandleIncoming | common/message_queue/mq_authn.cpp:89-131 | one iteration: every refusal, the answer to a challenge, or the accepted and stored identity |
| IdentityExchange.PeerWasRead | common/message_queue/mq_authn.cpp:113-127 | the identity stored, and the id it proves, come from a message that answered this side's nonce |
| IdentityExchange.ChallengeSent | common/message_queue/mq_authn.cpp:68-77 | a side first sends a challenge with its own nonce, addressed to nobody and unsigned |
| IdentityExchange.ChallengeAnswered | common/message_queue/mq_authn.cpp:89-111 | a challenge is answered exactly if it is the first, has a 16-byte nonce and neither destination nor signature; the answer holds that nonce, the side's own key and boot id, and its signature over them |
| IdentityExchange.IdentityTaken | common/message_queue/mq_authn.cpp:113-127 | an identity is taken exactly if it is the first, is signed by the key it names, over the nonce this side sent; the peer is then the id of that key and the identity is stored |
| IdentityAuthentication.CompletionAuthenticates | common/message_queue/mq_authn.cpp:24-46 | in every run of any number of exchanges among arbitrary messages, a side that knows its peer by an honest key's id stored that key and had its own nonce answered by its owner, and not by its own node if the id is not its own |
| IdentityAuthentication.AfterSound | common/message_queue/mq_authn.cpp:62-135 | every opened exchange, read message and routed reply keeps it so that identities sent are the sender's own and identities stored under honest keys were answered |
| IdentityAuthentication.AnswersOneNonce | common/message_queue/mq_authn.cpp:89-110 | in every run an exchange answers at most one nonce |
| IdentityAuthentication.PeerMayFaceAnother | common/message_queue/mq_authn.cpp:95-99 | an identity names no reader: a run in which one side knows a second, which knows a third |
| IdentityAuthentication.ExchangeReached | common/message_queue/mq_authn.cpp:62-135 | two honest sides reach a state in which each knows the other by an honest key's id |
| IdentityAuthentication.PremisesMet | common/message_queue/mq_authn.cpp:62-135 | the premises of the authentication theorem are met by keys that verify all they sign |
| IdentityAuthentication.OwnAnswerReached | common/message_queue/mq_authn.cpp:115-127 | the condition on the id is needed: a run in which a side reads back its own two messages and completes with its own id |
| IdentityExchange.OwnAnswerCompletes | common/message_queue/mq_authn.cpp:115-127 | a side that reads back its own two messages completes with its own id |
| IdentityExchange.DoneIffAnswered | common/message_queue/mq_authn.cpp:24-46 | two messages complete it if and only if they are one valid challenge and one identity answering the nonce, in either order |
| IdentityExchange.ExchangeSucceeds | common/message_queue/mq_authn.cpp:62-135 | two honest sides never fail or deadlock, finish in six steps, and record each other's node id |
| IdentityExchange.TrafficUnread | common/message_queue/mq_authn.cpp:82-132 | later traffic is left unread, complete and in order |
| EndorsementCodec.AppendUint | common/endorsement/endorsement.cpp:26-37 | appends a big-endian number |
| EndorsementCodec.Serialize | common/endorsement/endorsement.cpp:142-157 | encodes a signed endorsement, refuses an unsigned one |
| EndorsementCodec.EncodedBytes | common/endorsement/endorsement.cpp:142-157 | the encoding byte by byte: `RSE1`, subject, service, type, the numbers, value and signature, each at its place |
| EndorsementCodec.EncodedNumbers | common/endorsement/endorsement.cpp:26-37 | the expiry and the two sizes are big-endian numbers of 8, 4 and 4 bytes, the sizes cut to 32 bits |
| EndorsementCodec.SerializedIsFront | common/endorsement/endorsement.cpp:62-64 | what is sent is the front of the encoding, as many bytes as the low 32 bits of its size say |
| EndorsementCodec.BufferReader.ReadBytes | common/endorsement/endorsement.cpp:120-128 | reads exactly when enough bytes are left |
| EndorsementCodec.BufferReader.ReadUint | common/endorsement/endorsement.cpp:103-118 | reads a big-endian number |
| EndorsementCodec.BufferReader.ExpectMagic | common/endorsement/endorsement.cpp:96-101 | accepts exactly the magic word |
| EndorsementCodec.Deserialize | common/endorsement/endorsement.cpp:159-179 | reading field by field accepts exactly the well laid out buffers and returns their parts |
| EndorsementCodec.DecodeEncode | common/endorsement/endorsement.cpp:844-853 | decoding an encoded endorsement returns it if and only if the whole encoding fits 32 bits |
| EndorsementCodec.FieldSizesDoNotSuffice | common/endorsement/endorsement.cpp:62-64 | an endorsement with 32-bit field sizes that is lost |
| EndorsementCodec.EncodeDecode | common/endorsement/endorsement.cpp:844-853 | re-encoding anything the decoder accepts returns the same bytes |

## Left out

- Real cryptography, randomness and key files: parameters with the stated laws.
- Protobuf reflection and field lookup: a message is what the evaluators can observe of it.
- Ids that are not 16 bytes where the code checks them by throwing (evaluators, printer): ids are typed as 16 bytes. A missing id in ENDORSEMENT_TYPE or ENDORSEMENT_SIGNER prints as nothing here and throws in the code; such trees are not printable in either.
- Signed overflow while reading an enum number, and negating the least 64-bit integer, are undefined in C++; the model wraps there.
- Key negotiation steps are whole lock regions together with the message they queue, and expiry sweeps are steps of their own; the network may reorder and (except for NoOrphanedInitiator, NoOrphanedResponder and AloneIffRefused) lose messages but does not duplicate them.
- A bounded output queue whose push fails: queues are unbounded by default.
- Identity resolution: the clock of the wait loop is reduced to whether the deadline has passed, and absent callbacks are not modelled (a failed message is one handed to failure handling).
- Identity cache callbacks and challenge requests: they do not change the cache. The list position kept in an entry is modelled by searching the list.
- An identity exchange on a closed connection or with an unusable local key: it fails before anything is sent. The callback that stores an identity is modelled as a field and as always present. A challenge routed to a node (common/node.cpp:383-404) is answered, in the runs of `IdentityAuthentication`, by any node at any time for any 16-byte nonce.
- Log records: the envelope that is delivered is not modelled, only for which subscription and with which answer; concurrent publishing is not modelled.
- Resource advertisements, schemas and the other messages of the resource manager: no hard property.
- The canonical message hash, transports, encodings, stream clients, native socket bridges, the Node.js, Python and Rust clients, configuration merging and main programs: input and output plumbing, or easy members only.
