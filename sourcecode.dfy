/** The declarations the analyzer's node resolver and network validator work on
    (internal/compiler/analyzer/component_nodes.go and component_net.go, which share one
    snapshot of the source package and of the type system), and the collaborators they
    call but that are not part of this model: the scope's entity lookup, the type
    expression resolver and the struct-field path lookup. */
module Sourcecode {
  import opened Wrappers

  /** Source positions; carried along, never inspected. */
  datatype Meta = Meta(text: string, startLine: int, startColumn: int, stopLine: int, stopColumn: int)

  const ZeroMeta := Meta("", 0, 0, 0, 0)

  datatype EntityRef = EntityRef(pkg: string, name: string)

  datatype Location = Location(pkg: string, file: string)

  /** A type expression: an instantiation, or an array, enum, struct or union literal. */
  datatype Expr =
    | Inst(ref: EntityRef, args: seq<Expr>)
    | ArrLit(size: int, elem: Expr)
    | EnumLit(labels: seq<string>)
    | StructLit(fields: map<string, Expr>)
    | UnionLit(members: seq<Expr>)

  datatype Param = Param(name: string, constr: Expr)

  datatype Port = Port(typeExpr: Expr, isArray: bool, meta: Meta)

  datatype IO = IO(inports: map<string, Port>, outports: map<string, Port>)

  datatype Interface = Interface(typeParams: seq<Param>, io: IO, meta: Meta)

  /** Directive name to its ordered arguments. */
  type Directives = map<string, seq<string>>

  /** The directive names the analyzer looks up; their spelling belongs to the compiler
      package, which is not part of this model. */
  const BindDirective := "bind"
  const ExternDirective := "extern"
  const AutoportsDirective := "autoports"

  /** A node of a component. Go tells a nil dependency map from an empty one: `hasDeps` is
      false for nil, and `deps` is then empty. */
  datatype Node = Node(directives: Directives, entityRef: EntityRef, typeArgs: seq<Expr>, hasDeps: bool, deps: map<string, Node>, meta: Meta)

  datatype PortAddr = PortAddr(node: string, port: string, meta: Meta)

  datatype SenderSide = SenderSide(portAddr: Option<PortAddr>, constRef: Option<EntityRef>, selectors: seq<string>, meta: Meta)

  datatype ReceiverSide = ReceiverSide(portAddr: PortAddr, meta: Meta)

  datatype Connection = Connection(senderSide: SenderSide, receiverSides: seq<ReceiverSide>, meta: Meta)

  datatype Component = Component(directives: Directives, interface: Interface, nodes: map<string, Node>, net: seq<Connection>)

  /** A constant is either a reference to another constant or a value with its type expression. */
  datatype Const = RefConst(ref: EntityRef) | ValueConst(typeExpr: Expr)

  datatype EntityKind = TypeEntity | ConstEntity | InterfaceEntity | ComponentEntity

  /** An entity; as in the source, only the field matching `kind` is meaningful. */
  datatype Entity = Entity(kind: EntityKind, exported: bool, constDef: Const, interface: Interface, component: Component)

  /** The analysis scope: its location, and `Scope.Entity`, which finds an entity and the
      location it was found in, or fails. */
  datatype Scope = Scope(location: Location, entity: EntityRef -> Result<(Entity, Location), string>)

  /** The resolver's substitution of type parameters, passed through untouched. */
  type Frame = map<string, Expr>

  /** The type expression resolver: `ResolveFrame`, `ResolveExprWithFrame`, `ResolveExpr`
      and `IsSubtypeOf`, each of which may fail with a message. */
  datatype Resolver = Resolver(
    resolveFrame: (seq<Expr>, seq<Param>, Scope) -> Result<(seq<Expr>, Frame), string>,
    resolveExprWithFrame: (Expr, Frame, Scope) -> Result<Expr, string>,
    resolveExpr: (Expr, Scope) -> Result<Expr, string>,
    isSubtypeOf: (Expr, Expr, Scope) -> Outcome<string>)

  /** The analyzer: its resolver, and the type system's `GetStructFieldTypeByPath`. */
  datatype Analyzer = Analyzer(resolver: Resolver, getStructFieldTypeByPath: (Expr, seq<string>) -> Result<Expr, string>)
}
