# Neva compiler and runtime core, modelled in Dafny

This project models the parts of the Neva dataflow language's toolchain that make decisions:

- **Subtype checker.** Decides whether one type expression is a subtype of another. It handles
  instantiations, arrays, enums, records and unions, and guards against recursive types.
- **Program analyzer.**
  - Checks the main package and analyses type parameters.
  - Resolves each node of a component against the entity it instantiates, including the
    synthesised interface of struct-inports nodes.
  - Types every connection of a component's network, and checks that every node's ports are
    used.
  - Analyses a package's entities and collects the entities it uses.
- **Module validator.** Checks ports, dependencies and workers.
- **Runtime custom module.** Covers the array-port sizes, the port points, and their
  constructors and comparison.
- **Wire-format caster.** Turns the program's wire form into the runtime program.
- **Runtime message.** A tagged union with its accessors, constructors and string renderings.
- **Parse-tree listener.** Fills a file's import and entity tables.

Collaborators whose code is not part of this model are function-typed fields of datatypes
passed in. These are the type-expression resolver, `Scope.Entity`, `IsTopType`, the recursion
terminator, `GetStructFieldTypeByPath`, the per-kind entity analysers, the JSON encoder and the
parse helpers. Where the Go code walks a map, the model walks it in an unspecified order, the
way Go's map iteration does. Methods pick the next key with `:|`. Their contracts say when the
operation succeeds and that a reported error is one the input really produces. They do not say
which of several failures comes first.

Files, one module each:

- `wrappers.dfy`: Option, Result, Outcome
- `typesystem.dfy`: the subtype checker
- `sourcecode.dfy`: source-code types and the collaborator bundle
- `component_nodes.dfy`: node resolution
- `component_net.dfy`: network typing and usage
- `analyzer.dfy`: the analyzer entry points
- `main_pkg.dfy`: the main package checks
- `entities.dfy`: the entity pass
- `validator.dfy`: the module validator
- `core_module.dfy`: the runtime custom module
- `caster.dfy`: the wire-format caster
- `msg.dfy`: the runtime message
- `listener.dfy`: the parse-tree listener

## Model

| member | source | states |
|---|---|---|
| Typesystem.Refs | pkg/typesystem/subtype_checker.go:153-168 | the list has one reference per link of the trace and ends with the trace's own reference; the definition puts the oldest first |
| Typesystem.GetNewTerminatorParams | pkg/typesystem/subtype_checker.go:153-168 | each trace is extended by its own side's reference, its predecessor is the old trace, and the scope is kept |
| Typesystem.MustNewSubtypeChecker | pkg/typesystem/subtype_checker.go:170-177 | a checker exists exactly when a terminator is given, and it holds that terminator |
| Typesystem.Check | pkg/typesystem/subtype_checker.go:38-151 | the subtype check; the lemmas below state its rules one by one, and Reflexive proves it reflexive |
| Typesystem.TopTypeAcceptsAll | pkg/typesystem/subtype_checker.go:39-41 | a top-type constraint accepts every candidate |
| Typesystem.KindMismatch | pkg/typesystem/subtype_checker.go:43-49 | an instantiation against a literal (or the reverse) fails with ErrDiffKinds exactly when the constraint is not a union |
| Typesystem.LitKindMismatch | pkg/typesystem/subtype_checker.go:86-90 | two literals of different kinds fail with ErrDiffLitTypes unless the constraint is a union |
| Typesystem.TerminatorFailure | pkg/typesystem/subtype_checker.go:51-60 | a failing terminator on either trace makes an instantiation check fail |
| Typesystem.BothRecursiveSucceeds | pkg/typesystem/subtype_checker.go:62-64 | two instantiations whose traces are both recursive are accepted without comparing references or arguments |
| Typesystem.InstRules | pkg/typesystem/subtype_checker.go:66-83 | different references fail with ErrDiffRefs; fewer arguments fail with ErrArgsCount; otherwise success iff every constraint argument accepts the candidate's argument at its position, under the extended traces, and failure is ErrArgNotSubtype |
| Typesystem.ExtraArgsIgnored | pkg/typesystem/subtype_checker.go:70-81 | candidate arguments beyond the constraint's count never change the outcome |
| Typesystem.ArrayRule | pkg/typesystem/subtype_checker.go:93-99 | an array is accepted iff it is at least as long and its element type is accepted; each failure has its own error |
| Typesystem.EnumPrefix | pkg/typesystem/subtype_checker.go:100-108 | an enum is accepted iff its labels are a prefix of the constraint's; a longer enum fails with ErrBigEnum, a mismatching label with ErrEnumEl |
| Typesystem.RecordWidth | pkg/typesystem/subtype_checker.go:109-121 | a record is accepted iff it has every constraint field and each such field is accepted (width subtyping); every failure kind names a real missing or failing field |
| Typesystem.UnionOfNonUnion | pkg/typesystem/subtype_checker.go:122-131 | a non-union is accepted by a union iff some member accepts it, failing with ErrUnion otherwise |
| Typesystem.UnionOfUnion | pkg/typesystem/subtype_checker.go:132-147 | a union is accepted iff it has no more members and each member is accepted by some constraint member |
| Typesystem.Reflexive | pkg/typesystem/subtype_checker.go:38-151 | with a terminator that always answers, every expression is a subtype of itself |
| Typesystem.ArraySizes | pkg/typesystem/subtype_checker.go:93-96 | [5]int is a subtype of [3]int, and [3]int is not a subtype of [5]int |
| Typesystem.RecordFields | pkg/typesystem/subtype_checker.go:109-117 | {a int, b str} is a subtype of {a int} but not of {a int, c bool} |
| Typesystem.UnionMembers | pkg/typesystem/subtype_checker.go:122-135 | int is a subtype of int \| str; a two-member union is not a subtype of a one-member union |
| ComponentNodes.GetResolvedNodeInterface | internal/compiler/analyzer/component_nodes.go:134-267 | the loop over the struct's fields computes the specified interface: the guards in order, then the declared or the synthesised interface |
| ComponentNodes.DeclaredInterfaceKept | internal/compiler/analyzer/component_nodes.go:141-177 | an interface node resolves iff it has no bind directive and no dependencies, and keeps its interface; a component without struct inports keeps its own, subject to the bind and extern guards |
| ComponentNodes.StructInportsShape | internal/compiler/analyzer/component_nodes.go:213-266 | a resolved struct-inports node has one inport per struct field, typed by that field, and a single outport "v" typed by the whole struct |
| ComponentNodes.StructInportsRequirements | internal/compiler/analyzer/component_nodes.go:181-211 | a resolved struct-inports node's component declares no inports and exactly one type parameter whose constraint resolves to a struct |
| ComponentNodes.NodeHead | internal/compiler/analyzer/component_nodes.go:46-101 | the node's own checks in source order; its properties are in TypeArgsArity and NodeEntityKind |
| ComponentNodes.AnalyzeNodeHead | internal/compiler/analyzer/component_nodes.go:46-101 | a missing entity is ErrScopeEntity and a wrong kind ErrNodeWrongEntity; on success the entity is a component or an interface, a bind directive has one argument, the interface is the node's resolved interface, the type arguments match its parameters in number, and the resolved arguments are the frame's |
| ComponentNodes.AnalyzeComponentNode | internal/compiler/analyzer/component_nodes.go:45-132 | success iff the node and, recursively, all its dependencies are fine; the result is the resolved node with the resolved interface; every error is one the node's tree really produces |
| ComponentNodes.AnalyzeDeps | internal/compiler/analyzer/component_nodes.go:112-123 | every dependency resolved under its own name, or an error some dependency really produces |
| ComponentNodes.AnalyzeComponentNodes | internal/compiler/analyzer/component_nodes.go:20-42 | success iff every node is fine; the resolved nodes and their interfaces are keyed like the input |
| ComponentNodes.TypeArgsArity | internal/compiler/analyzer/component_nodes.go:88-101 | a resolved node has as many type arguments as its interface has parameters; each arity error matches a real shortage or excess |
| ComponentNodes.NodeEntityKind | internal/compiler/analyzer/component_nodes.go:46-66 | a node passes only if it instantiates a component or an interface; an entity of another kind is ErrNodeWrongEntity; ErrBindDirectiveArgs is reported iff a bind directive does not have exactly one argument |
| ComponentNodes.ResolvedNodeSameShape | internal/compiler/analyzer/component_nodes.go:103-131 | resolution keeps the node tree's shape: the same dependency names at every level |
| ComponentNet.ResolvedPortType | internal/compiler/analyzer/component_net.go:238-273 | a missing port is ErrNodePortNotFound; a found port's type is resolved in the frame of the node's type arguments |
| ComponentNet.NodeInportType | internal/compiler/analyzer/component_net.go:190-236 | as written: a missing node is ErrNodeNotFound; an inport is looked up in the entity's declared interface |
| ComponentNet.StructInportsNodeInportRejected | internal/compiler/analyzer/component_net.go:190-236 | as written, every inport of a struct-inports node is reported missing |
| ComponentNet.NodeInportTypeIntended | internal/compiler/analyzer/component_net.go:190-236 | corrected: the inport is looked up in the node's resolved interface |
| ComponentNet.StructInportsNodeInportFound | internal/compiler/analyzer/component_nodes.go:245-266 | with the correction, a struct field's inport of a struct-inports node is found and typed |
| ComponentNet.InportLookupsAgreeOtherwise | internal/compiler/analyzer/component_net.go:190-236 | for every other node both lookups agree |
| ComponentNet.NodeOutportType | internal/compiler/analyzer/component_net.go:333-373 | a missing node is ErrNodeNotFound; a found outport is in the node's resolved interface |
| ComponentNet.ResolvedConstType | internal/compiler/analyzer/component_net.go:375-414 | follows constant references, with `fuel` bounding the chain; its properties are in ConstChainResolves, ResolvedConstTypeFromChain and ConstRefToNonConst |
| ComponentNet.ConstChainResolves | internal/compiler/analyzer/component_net.go:375-414 | a chain of constant references ending in a typed constant resolves to that type, or to its resolution error |
| ComponentNet.ResolvedConstTypeFromChain | internal/compiler/analyzer/component_net.go:375-414 | every resolved constant type comes from such a chain |
| ComponentNet.ConstRefToNonConst | internal/compiler/analyzer/component_net.go:383-390 | a reference to a non-constant entity is ErrEntityNotConst |
| ComponentNet.SenderType | internal/compiler/analyzer/component_net.go:275-331 | an empty sender is an error; a constant sender has the constant's type; reading the component's own outports is ErrReadSelfOut; "in" looks up the inports; otherwise it is the node's outport type |
| ComponentNet.ReceiverType | internal/compiler/analyzer/component_net.go:152-188 | writing the component's own inports is ErrWriteSelfIn; "out" looks up the outports; any other node's inport type comes from NodeInportType as written (`AsWritten`), or from NodeInportTypeIntended (`Intended`) |
| ComponentNet.ReceiversCheckPass | internal/compiler/analyzer/component_net.go:57-88 | the receivers pass iff every receiver's type resolves and accepts the carried type |
| ComponentNet.NetCheck | internal/compiler/analyzer/component_net.go:27-89 | the connections are checked in order and the first failure decides; its properties are in NetCheckPass, NetCheckFirstFailure, StructInportsReceiverRejectsNet and NetCheckLookupsAgree |
| ComponentNet.NetCheckPass | internal/compiler/analyzer/component_net.go:27-89 | the network passes iff every connection does |
| ComponentNet.NetCheckFirstFailure | internal/compiler/analyzer/component_net.go:27-89 | a failing network reports the first failing connection's error |
| ComponentNet.SelectorsProjectSenderType | internal/compiler/analyzer/component_net.go:45-55 | with selectors, the carried type is the selected field's type, or the field lookup's error |
| ComponentNet.StructInportsReceiverRejectsNet | internal/compiler/analyzer/component_net.go:179 | as written, a network with a receiver on any inport of an accepted struct-inports node never type-checks |
| ComponentNet.ReceiversCheckLookupsAgree | internal/compiler/analyzer/component_net.go:57-88 | receivers that are not on struct-inports nodes get the same verdict from both lookups |
| ComponentNet.NetCheckLookupsAgree | internal/compiler/analyzer/component_net.go:27-89 | when no receiver is on a struct-inports node, the as-written and corrected network checks agree |
| ComponentNet.MarkReceiversEntry | internal/compiler/analyzer/component_net.go:57-88 | recording receivers adds exactly their inports to the usage ledger and leaves outports alone |
| ComponentNet.UsageOfRecordsPorts | internal/compiler/analyzer/component_net.go:27-89 | the ledger has an inport iff some connection writes it, an outport iff some sender reads it, and a node iff some connection mentions it |
| ComponentNet.CheckNodesUsage | internal/compiler/analyzer/component_net.go:105-150 | passes iff every node's used inports and outports satisfy the usage rules; an error names a node that breaks them |
| ComponentNet.AnalyzeReceivers | internal/compiler/analyzer/component_net.go:57-88 | the loop fails with the receivers' check error, or records all receivers |
| ComponentNet.AnalyzeConnection | internal/compiler/analyzer/component_net.go:27-89 | one connection fails with its check error, or records its sender and receivers |
| ComponentNet.AnalyzeComponentNetwork | internal/compiler/analyzer/component_net.go:15-96 | a type error in the network is returned as is; a well-typed network succeeds iff all nodes are used, and an error is a real usage error; success returns the network. With `AsWritten` this is the source's check; with `Intended` it uses the corrected inport lookup |
| ProgramAnalyzer.Analyze | internal/compiler/analyzer/analyzer.go:47-67 | a missing main package and a failing main check are errors; success iff every package analyses, with results keyed like the input; other errors name a failing package |
| ProgramAnalyzer.AnalyzeTypeParameters | internal/compiler/analyzer/analyzer.go:70-94 | as written: validator errors first; success iff every constraint resolves; results in order; an error names the first unresolved parameter |
| ProgramAnalyzer.UnconstrainedParamLosesName | internal/compiler/analyzer/analyzer.go:80-83 | as written, an unconstrained parameter comes back as the zero parameter, without its name |
| ProgramAnalyzer.AnalyzeTypeParametersIntended | internal/compiler/analyzer/analyzer.go:70-94 | the same contract, with unconstrained parameters kept |
| ProgramAnalyzer.IntendedParamsKeepNames | internal/compiler/analyzer/analyzer.go:84-91 | corrected, every parameter keeps its name, and a constraint exactly when it had one |
| ProgramAnalyzer.AnalyzeIO | internal/compiler/analyzer/analyzer.go:96-98 | the stub returns an empty interface, no used entities and no error |
| ProgramAnalyzer.AnalyzeIOIgnoresInput | internal/compiler/analyzer/analyzer.go:96-98 | the result does not depend on the arguments |
| ProgramAnalyzer.UnionAllMembership | internal/compiler/analyzer/analyzer.go:100-108 | an entity is in the merge iff it is in one of the sets |
| ProgramAnalyzer.MergeUsed | internal/compiler/analyzer/analyzer.go:100-108 | the nested loops compute the union of all sets |
| ProgramAnalyzer.MustNew | internal/compiler/analyzer/analyzer.go:110-117 | an analyzer exists iff all three collaborators are given, and it holds them |
| MainPkg.MainSpecificPkgValidation | internal/compiler/analyzer/main_pkg.go:17-53 | ErrMainEntityNotFound iff no file declares Main; passing means no entity is exported and some Main is an unexported component that analyses; if every Main is fine and nothing is exported it passes; every other error names a real violation |
| MainPkg.MainChecksInOrder | internal/compiler/analyzer/main_pkg.go:23-50 | with a single Main, the outcome is fixed: kind first, then the export flag, then the analysis, then the package's exports |
| Entities.AnalyzeEntity | internal/compiler/analyze/entities.go:44-96 | lookup errors and unknown kinds are errors; success keeps kind and export flag and sets exactly the kind's definition |
| Entities.AnalyzeEntities | internal/compiler/analyze/entities.go:20-42 | success iff every entity analyses; results keyed like the package; the used set is exactly the exported entities, the root component and what each entity uses; an error names a failing entity |
| Validator.ValidatePorts | internal/compiler/validator/validator.go:30-48 | passes iff both directions have ports of known types; an empty direction fails first; an unknown-type error names an unknown port |
| Validator.ValidateDeps | internal/compiler/validator/validator.go:62-70 | passes iff every dependency's ports are valid; an error names an invalid dependency with its port error |
| Validator.ValidateWorkers | internal/compiler/validator/validator.go:51-59 | passes iff every worker names an existing dependency; an error names a worker whose dependency is missing |
| Validator.Validate | internal/compiler/validator/validator.go:11-27 | ports, then dependencies, then workers; its properties are in ValidateExact, ValidateOrder and AddValidDep |
| Validator.ValidateExact | internal/compiler/validator/validator.go:11-27 | a module is valid iff its ports, its dependencies and its workers are |
| Validator.ValidateOrder | internal/compiler/validator/validator.go:11-27 | ports are checked before dependencies, dependencies before workers |
| Validator.AddValidDep | internal/compiler/validator/validator.go:11-27 | adding a valid dependency keeps a valid module valid |
| CoreModule.Inc | internal/core/module.go:56 | the `uint8` increment wraps 255 to 0 |
| CoreModule.CustomModule.Incoming | internal/core/module.go:16-18 | the stub answers 0 |
| CoreModule.IncomingIgnoresPort | internal/core/module.go:16-18 | the answer does not depend on the port |
| CoreModule.CustomModule.Interface | internal/core/module.go:20-25 | the interface is the module's inports and outports |
| CoreModule.CustomModule.Validate | internal/core/module.go:27-43 | passes iff there is at least one inport and one outport |
| CoreModule.NewCustomModule | internal/core/module.go:154-174 | a module is returned iff it has inports and outports, holding exactly the given parts |
| CoreModule.ArrInSize | internal/core/module.go:50-62 | the number of (sender, receiver) connections into the port, modulo 256 |
| CoreModule.ArrOutSize | internal/core/module.go:64-74 | the number of senders at the port, modulo 256 |
| CoreModule.NewNormPortPoint | internal/core/module.go:87-96 | succeeds iff node and port are non-empty, and keeps both |
| CoreModule.NewArrPortPoint | internal/core/module.go:121-131 | succeeds iff node and port are non-empty and the index is at most 255, keeping all three (the narrowing never truncates) |
| CoreModule.CompareAsWritten | internal/core/module.go:106-152 | both Compare methods as written; what they compute is in CompareAsWrittenIgnoresFields |
| CoreModule.CompareAsWrittenIgnoresFields | internal/core/module.go:106-152 | as written, Compare holds iff both points are of the same kind, so Norm(a, x) equals Norm(b, y) |
| CoreModule.Compare | internal/core/module.go:106-152 | corrected, Compare holds iff the points are equal |
| CoreModule.CompareIsEquivalence | internal/core/module.go:106-152 | a consequence of Compare's contract: the corrected Compare is reflexive, symmetric and transitive |
| Caster.CastAddr | internal/runtime/decoder/proto/caster.go:37-41 | path and port are kept and the index is narrowed to a `uint8`, that is taken modulo 256 |
| Caster.CastAddrCollides | internal/runtime/decoder/proto/caster.go:37-41 | two wire addresses cast to the same address iff path and port agree and the indices agree modulo 256 (0 and 256 collide) |
| Caster.CastAddrKeepsSmallIdx | internal/runtime/decoder/proto/caster.go:25-29 | below 256 the index, path and port are kept |
| Caster.CastAddrList | internal/runtime/decoder/proto/caster.go:76-92 | an address list is cast element by element, in order |
| Caster.MsgOf | internal/runtime/decoder/proto/caster.go:149-180 | the cast of a message, the specification CastMsg is proved against; its properties are in MsgOfScalars, MsgOfStruct and MsgOfDictsUnderStrTag |
| Caster.CastMsg | internal/runtime/decoder/proto/caster.go:149-180 | the recursive cast with its struct loop computes the specified message |
| Caster.MsgOfScalars | internal/runtime/decoder/proto/caster.go:152-167 | bool, int and str keep their payload under the matching tag, and an unknown type gives the zero message |
| Caster.MsgOfStruct | internal/runtime/decoder/proto/caster.go:168-176 | a struct keeps its keys with each value cast, but is tagged StrMsg |
| Caster.MsgOfDictsUnderStrTag | internal/runtime/decoder/proto/caster.go:149-180 | at every depth, a dictionary occurs only under a StrMsg tag |
| Caster.TableKeys | internal/runtime/decoder/proto/caster.go:33-46 | an address-keyed table has exactly the cast addresses of its elements as keys |
| Caster.TableLastWins | internal/runtime/decoder/proto/caster.go:33-46 | an address given twice keeps its last value (castPorts, 135-147, builds the same kind of table) |
| Caster.CastPorts | internal/runtime/decoder/proto/caster.go:135-147 | the loop builds the buffer-size table, with buffer sizes narrowed to `uint8` |
| Caster.CastConstants | internal/runtime/decoder/proto/caster.go:33-46 | the loop builds the constant-message table |
| Caster.CastTriggers | internal/runtime/decoder/proto/caster.go:48-71 | one trigger per wire trigger, in order, with its message and both addresses cast |
| Caster.CastOperators | internal/runtime/decoder/proto/caster.go:73-106 | one operator per wire operator, in order; package and name become class and name; both address lists keep order and length |
| Caster.CastConnections | internal/runtime/decoder/proto/caster.go:108-133 | one connection per wire connection, in order; receivers keep their order, action and struct-field path |
| Caster.Cast | internal/runtime/decoder/proto/caster.go:10-31 | every part cast, plus the start port; the error is always nil |
| RuntimeMsg.TypeTags | internal/runtime/msg.go:25-161 | the tag constants and each variant's Type method: tags are empty 0, bool 1, int 2, str 4, list 5, map 6; no variant here has the float tag, and the tag tells the variants apart |
| RuntimeMsg.ConstructorRoundTrips | internal/runtime/msg.go:55-188 | each constructor's accessor returns its argument, and its tag is its own |
| RuntimeMsg.AccessorDefaults | internal/runtime/msg.go:37-46 | accessors a variant does not override return false, 0, "" and empty |
| RuntimeMsg.AccessorsDetermineMsg | internal/runtime/msg.go:12-21 | tag plus accessor answers determine the message |
| RuntimeMsg.Msg.String | internal/runtime/msg.go:39-181 | every variant's String method; its properties are in StringOfScalars and MapStringSpacesSeparators |
| RuntimeMsg.StringOfScalars | internal/runtime/msg.go:39-121 | empty prints `<empty>`, a string prints itself, a bool prints `true` or `false`, an int prints in decimal that reads back as the value |
| RuntimeMsg.DigitsRoundTrip | internal/runtime/msg.go:57 | decimal digits are non-empty digits that parse back to the number |
| RuntimeMsg.Itoa | internal/runtime/msg.go:57 | `strconv.Itoa`; its property is in ItoaRoundTrip |
| RuntimeMsg.ItoaRoundTrip | internal/runtime/msg.go:57 | Itoa's output is a decimal numeral that parses back to the number |
| RuntimeMsg.SpaceAfterRoundTrip | internal/runtime/msg.go:169-171 | the separator replacement adds one space per separator and can be undone |
| RuntimeMsg.MapStringSpacesSeparators | internal/runtime/msg.go:163-181 | a map's rendering, with the added spaces removed, is its JSON encoding |
| Listener.Split | internal/compiler/parser/listener.go:32 | a split has at least one part |
| Listener.SplitJoin | internal/compiler/parser/listener.go:32-33 | joining the parts gives the string back, and no part holds the separator |
| Listener.LastPartIsSuffix | internal/compiler/parser/listener.go:32-33 | the last part is a suffix of the string, the whole string or preceded by the separator |
| Listener.ImportAlias | internal/compiler/parser/listener.go:25-34 | the identifier, or else the last `/`-segment of the path; its properties are in DefaultAliasIsLastSegment and PlainPathIsAlias |
| Listener.DefaultAliasIsLastSegment | internal/compiler/parser/listener.go:25-34 | without an identifier the alias is the path's last `/`-free segment, either the whole path or following a `/` |
| Listener.PlainPathIsAlias | internal/compiler/parser/listener.go:32-33 | a path without `/` is its own alias |
| Listener.EntitiesByKind | internal/compiler/parser/listener.go:41-139 | each entity is exported iff `pub` is present, has its kind and only its kind's definition; a component has nodes and network iff it has a body |
| Listener.DefineInterfacesKeepsOthers | internal/compiler/parser/listener.go:96-105 | names no interface definition uses keep their entities |
| Listener.DefineInterfacesLastWins | internal/compiler/parser/listener.go:96-105 | a name defined twice in one statement holds the last definition |
| Listener.TreeShapeListener.constructor | internal/compiler/parser/listener.go:11-14 | a new listener has empty tables |
| Listener.TreeShapeListener.EnterProg | internal/compiler/parser/listener.go:11-14 | both tables are reset to empty |
| Listener.TreeShapeListener.EnterUseStmt | internal/compiler/parser/listener.go:18-23 | the file is unchanged, so earlier imports survive |
| Listener.TreeShapeListener.EnterImportDef | internal/compiler/parser/listener.go:25-37 | the path is stored under its alias, overwriting, and entities are unchanged |
| Listener.TreeShapeListener.EnterTypeDef | internal/compiler/parser/listener.go:41-62 | the type entity is stored under its name, overwriting, and imports are unchanged |
| Listener.TreeShapeListener.EnterConstDef | internal/compiler/parser/listener.go:66-92 | the constant, tagged with its type expression, is stored under its name |
| Listener.TreeShapeListener.EnterInterfaceStmt | internal/compiler/parser/listener.go:96-105 | the interface definitions are stored in order |
| Listener.TreeShapeListener.EnterCompDef | internal/compiler/parser/listener.go:109-139 | the component is stored under its interface's name |

## Left out

- I/O, context arguments, goroutines and source positions are not modelled. Error messages are
  replaced by enumerated error kinds, which carry the innermost cause of a wrapped or merged Go
  error.
- The resolver, `Scope.Entity`, `IsTopType`, `ShouldTerminate` and `GetStructFieldTypeByPath`
  are collaborators given as function values. Their code is not part of this model.
- Go panics (`MustNewSubtypeChecker`, `MustNew` with a nil argument) become a `None` result.
  Nil pointers inside the inputs are not modelled. The model has no nil message inside a
  struct, and a type parameter's constraint pointer at component_nodes.go:203 is always
  present.
- ComponentNet.ResolvedConstType: a cycle of constant references makes the Go code loop. The
  model stops after `fuel` steps, so a chain longer than the fuel is reported as
  ErrConstChainTooLong.
- Typesystem.Check is a ghost function. When several record fields fail, the one it reports
  is picked with `:|`, as Go's map order picks it.
- The string form of a trace (`Trace.String`) is not modelled.
- MainPkg.MainSpecificPkgValidation is a ghost function. It picks with `:|` which file's
  `Main` is taken and which exported entity is reported.
- The validator's `New` and `MustNew` return an empty struct, so there is nothing to state
  about them.
- ProgramAnalyzer.AnalyzeIO models the source's stub as it is: it returns an empty interface.
- RuntimeMsg: `FloatMsg` and its tag's payload are not modelled, because floating point is
  out of scope.
- The `MarshalJSON` methods are not modelled. List and map rendering uses the JSON encoder as
  a collaborator; only a map's separator spacing is modelled.
- RuntimeMsg: Go distinguishes a nil slice or map from an empty one; here both are the empty
  value.
- Caster: the numeric values of the wire message-type enum are abstract. `OtherType` stands for
  every unrecognised type. A receiver's action is copied as its 32-bit code.
- Listener: the parse helpers (`parseTypeParams`, `parseTypeExpr`, `parseConstVal`,
  `parseInterfaceDef`, `parseNodes`, `parseNet`) are not part of this model. The contexts carry
  their results.
- Listener: the nil check at listener.go:125-127 is not modelled. The generated accessor
  returns a slice that is never nil.
- CoreModule: the `map[PortPoint]struct{}` receiver sets are modelled as sets.

## Findings

| source | as written | input that shows it | evidently intended | confidence | as-written member | corrected member |
|---|---|---|---|---|---|---|
| internal/compiler/analyzer/component_net.go:190-236 | getNodeInportType looks inports up in the entity's declared interface, not in the node's resolved interface | a node of a component with the struct-inports directive, and a receiver on one of its struct-field inports: the declared interface has no inports, so ErrNodePortNotFound | use the resolved interface from nodesIfaces, as getNodeOutportType does | medium, not executed | ComponentNet.StructInportsNodeInportRejected | ComponentNet.StructInportsNodeInportFound |
| internal/compiler/analyzer/analyzer.go:80-83 | a parameter without a constraint leaves the result slot at its zero value | the parameter list [T] with T unconstrained comes back as [""], losing the name T | keep the parameter as given | medium, not executed | ProgramAnalyzer.UnconstrainedParamLosesName | ProgramAnalyzer.IntendedParamsKeepNames |
| internal/core/module.go:106-152 | both Compare methods compare the argument's fields with themselves | Norm("a", "x").Compare(Norm("b", "y")) is true | compare the receiver's node, port and index with the argument's | high, not executed | CoreModule.CompareAsWrittenIgnoresFields | CoreModule.Compare |
