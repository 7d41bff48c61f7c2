/** The network validator of internal/compiler/analyzer/component_net.go: every connection's
    sender and receivers are typed, every receiver must accept the carried type, and once
    the whole network is checked every node must have all its inports wired and, if it has
    outports, at least one outport read. */
module ComponentNet {
  import opened Wrappers
  import opened Sourcecode
  import ComponentNodes

  /** The cause of a network error. Wrapping context added on the way up is not kept. */
  datatype NetError =
    | ErrSenderIsEmpty
    | ErrReadSelfOut
    | ErrWriteSelfIn
    | ErrInportNotFound(port: string)
    | ErrNodeNotFound(node: string)
    | ErrNodePortNotFound(addr: PortAddr)
    | ErrScopeEntity(msg: string)
    | ErrEntityNotConst(kind: EntityKind)
    | ErrConstChainTooLong
    | ErrResolve(msg: string)
    | ErrStructField(msg: string)
    | ErrSubtype(msg: string)
    | ErrUnusedNode(node: string)
    | ErrUnusedNodeInport(node: string, inport: string)
    | ErrUnusedNodeOutports(node: string)

  // ---------------------------------------------------------------------------
  // Port and constant types

  /** getResolvedPortType: the port must be declared; the node's type arguments are bound
      to the interface's parameters and the port's type expression is resolved in that frame. */
  function ResolvedPortType(a: Analyzer, ports: map<string, Port>, params: seq<Param>, portAddr: PortAddr, node: Node, scope: Scope): (r: Result<Expr, NetError>)
    ensures portAddr.port !in ports ==> r == Err(ErrNodePortNotFound(portAddr))
    ensures r.Ok? ==> portAddr.port in ports && a.resolver.resolveFrame(node.typeArgs, params, scope).Ok?
                      && a.resolver.resolveExprWithFrame(ports[portAddr.port].typeExpr, a.resolver.resolveFrame(node.typeArgs, params, scope).value.1, scope) == Ok(r.value)
  {
    if portAddr.port !in ports then Err(ErrNodePortNotFound(portAddr))
    else match a.resolver.resolveFrame(node.typeArgs, params, scope)
      case Err(m) => Err(ErrResolve(m))
      case Ok((_, frame)) =>
        match a.resolver.resolveExprWithFrame(ports[portAddr.port].typeExpr, frame, scope)
        case Err(m) => Err(ErrResolve(m))
        case Ok(t) => Ok(t)
  }

  /** The interface a node's entity declares: its component's interface for a component,
      otherwise the entity's own interface. */
  function DeclaredInterface(entity: Entity): Interface
  {
    if entity.kind == ComponentEntity then entity.component.interface else entity.interface
  }

  /** getNodeInportType as written: the inport is looked up in the interface the node's
      entity declares, not in the node's resolved interface. */
  function NodeInportType(a: Analyzer, portAddr: PortAddr, nodes: map<string, Node>, scope: Scope): (r: Result<Expr, NetError>)
    ensures portAddr.node !in nodes ==> r == Err(ErrNodeNotFound(portAddr.node))
    ensures r.Ok? ==> portAddr.node in nodes && scope.entity(nodes[portAddr.node].entityRef).Ok?
                      && portAddr.port in DeclaredInterface(scope.entity(nodes[portAddr.node].entityRef).value.0).io.inports
  {
    if portAddr.node !in nodes then Err(ErrNodeNotFound(portAddr.node))
    else
      var node := nodes[portAddr.node];
      match scope.entity(node.entityRef)
      case Err(m) => Err(ErrScopeEntity(m))
      case Ok((entity, _)) =>
        var iface := DeclaredInterface(entity);
        ResolvedPortType(a, iface.io.inports, iface.typeParams, portAddr, node, scope)
  }

  /** getNodeInportType as evidently intended, symmetric to getNodeOutportType: the inport is
      looked up in the node's resolved interface, which holds the ports synthesised for
      struct-inports nodes. The network check uses it under `InportLookup.Intended`. */
  function NodeInportTypeIntended(a: Analyzer, portAddr: PortAddr, nodes: map<string, Node>, nodesIfaces: map<string, Interface>, scope: Scope): (r: Result<Expr, NetError>)
    ensures (portAddr.node !in nodes || portAddr.node !in nodesIfaces) ==> r == Err(ErrNodeNotFound(portAddr.node))
    ensures r.Ok? ==> portAddr.node in nodes && portAddr.node in nodesIfaces && portAddr.port in nodesIfaces[portAddr.node].io.inports
  {
    if portAddr.node !in nodes then Err(ErrNodeNotFound(portAddr.node))
    else if portAddr.node !in nodesIfaces then Err(ErrNodeNotFound(portAddr.node))
    else
      var iface := nodesIfaces[portAddr.node];
      ResolvedPortType(a, iface.io.inports, iface.typeParams, portAddr, nodes[portAddr.node], scope)
  }

  /** As written, a node of a struct-inports component that node analysis accepted has no
      receivable inport at all: the lookup goes to the component's declared inports, which
      the directive requires to be empty. */
  lemma StructInportsNodeInportRejected(a: Analyzer, nodes: map<string, Node>, scope: Scope, portAddr: PortAddr)
    requires portAddr.node in nodes && scope.entity(nodes[portAddr.node].entityRef).Ok?
    requires var entity := scope.entity(nodes[portAddr.node].entityRef).value.0;
             entity.kind == ComponentEntity && AutoportsDirective in entity.component.directives
    requires ComponentNodes.NodeHead(a, nodes[portAddr.node], scope).Ok?
    ensures NodeInportType(a, portAddr, nodes, scope) == Err(ErrNodePortNotFound(portAddr))
  {
    var node := nodes[portAddr.node];
    var entity := scope.entity(node.entityRef).value.0;
    ComponentNodes.StructInportsRequirements(a, entity, BindDirective in node.directives, node, scope);
  }

  /** Corrected, every field of the struct type argument of such a node is an inport that
      the lookup finds. */
  lemma StructInportsNodeInportFound(a: Analyzer, nodes: map<string, Node>, nodesIfaces: map<string, Interface>, scope: Scope, portAddr: PortAddr)
    requires portAddr.node in nodes && scope.entity(nodes[portAddr.node].entityRef).Ok?
    requires var entity := scope.entity(nodes[portAddr.node].entityRef).value.0;
             entity.kind == ComponentEntity && AutoportsDirective in entity.component.directives
    requires ComponentNodes.NodeHead(a, nodes[portAddr.node], scope).Ok?
    requires portAddr.node in nodesIfaces && nodesIfaces[portAddr.node] == ComponentNodes.NodeHead(a, nodes[portAddr.node], scope).value.0
    requires var node := nodes[portAddr.node];
             |node.typeArgs| == 1 && a.resolver.resolveExpr(node.typeArgs[0], scope).Ok? &&
             a.resolver.resolveExpr(node.typeArgs[0], scope).value.StructLit? &&
             portAddr.port in a.resolver.resolveExpr(node.typeArgs[0], scope).value.fields
    ensures NodeInportTypeIntended(a, portAddr, nodes, nodesIfaces, scope) != Err(ErrNodePortNotFound(portAddr))
    ensures NodeInportTypeIntended(a, portAddr, nodes, nodesIfaces, scope) ==
            ResolvedPortType(a, nodesIfaces[portAddr.node].io.inports, nodesIfaces[portAddr.node].typeParams, portAddr, nodes[portAddr.node], scope)
  {
    var node := nodes[portAddr.node];
    var entity := scope.entity(node.entityRef).value.0;
    ComponentNodes.StructInportsShape(a, entity, BindDirective in node.directives, node, scope);
  }

  /** For every other node node analysis accepts, the corrected lookup finds the same
      interface as the as-written one, so the correction changes nothing else. */
  lemma InportLookupsAgreeOtherwise(a: Analyzer, nodes: map<string, Node>, nodesIfaces: map<string, Interface>, scope: Scope, portAddr: PortAddr)
    requires portAddr.node in nodes && scope.entity(nodes[portAddr.node].entityRef).Ok?
    requires var entity := scope.entity(nodes[portAddr.node].entityRef).value.0;
             entity.kind == InterfaceEntity || AutoportsDirective !in entity.component.directives
    requires ComponentNodes.NodeHead(a, nodes[portAddr.node], scope).Ok?
    requires portAddr.node in nodesIfaces && nodesIfaces[portAddr.node] == ComponentNodes.NodeHead(a, nodes[portAddr.node], scope).value.0
    ensures NodeInportType(a, portAddr, nodes, scope) == NodeInportTypeIntended(a, portAddr, nodes, nodesIfaces, scope)
  {
    var node := nodes[portAddr.node];
    var entity := scope.entity(node.entityRef).value.0;
    ComponentNodes.DeclaredInterfaceKept(a, entity, BindDirective in node.directives, node, scope);
    ComponentNodes.NodeEntityKind(a, node, scope);
  }

  /** getNodeOutportType: the node must exist and have a resolved interface; its outport is
      resolved against that interface. */
  function NodeOutportType(a: Analyzer, portAddr: PortAddr, nodes: map<string, Node>, nodesIfaces: map<string, Interface>, scope: Scope): (r: Result<Expr, NetError>)
    ensures (portAddr.node !in nodes || portAddr.node !in nodesIfaces) ==> r == Err(ErrNodeNotFound(portAddr.node))
    ensures r.Ok? ==> portAddr.node in nodes && portAddr.node in nodesIfaces && portAddr.port in nodesIfaces[portAddr.node].io.outports
  {
    if portAddr.node !in nodes then Err(ErrNodeNotFound(portAddr.node))
    else if portAddr.node !in nodesIfaces then Err(ErrNodeNotFound(portAddr.node))
    else
      var iface := nodesIfaces[portAddr.node];
      ResolvedPortType(a, iface.io.outports, iface.typeParams, portAddr, nodes[portAddr.node], scope)
  }

  /** getResolvedConstType: follows constant references until a constant with a value and
      resolves the value's type. Go recurses without bound (a cyclic chain does not return);
      here `fuel` bounds the number of references followed. */
  function ResolvedConstType(a: Analyzer, ref: EntityRef, scope: Scope, fuel: nat): Result<Expr, NetError>
    decreases fuel
  {
    match scope.entity(ref)
    case Err(m) => Err(ErrScopeEntity(m))
    case Ok((entity, _)) =>
      if entity.kind != ConstEntity then Err(ErrEntityNotConst(entity.kind))
      else match entity.constDef
        case RefConst(next) =>
          if fuel == 0 then Err(ErrConstChainTooLong) else ResolvedConstType(a, next, scope, fuel - 1)
        case ValueConst(t) =>
          match a.resolver.resolveExpr(t, scope)
          case Err(m) => Err(ErrResolve(m))
          case Ok(r) => Ok(r)
  }

  /** `ref` starts a chain of exactly `n` constant references ending at a constant whose value
      has type expression `t`. */
  ghost predicate ConstChain(scope: Scope, ref: EntityRef, n: nat, t: Expr)
    decreases n
  {
    scope.entity(ref).Ok? && scope.entity(ref).value.0.kind == ConstEntity &&
    match scope.entity(ref).value.0.constDef
    case ValueConst(v) => n == 0 && v == t
    case RefConst(next) => n > 0 && ConstChain(scope, next, n - 1, t)
  }

  /** A constant sender whose chain of references reaches a value within the fuel has the
      resolved type of that value. */
  lemma {:induction false} ConstChainResolves(a: Analyzer, ref: EntityRef, scope: Scope, n: nat, t: Expr, fuel: nat)
    requires ConstChain(scope, ref, n, t) && n <= fuel
    ensures a.resolver.resolveExpr(t, scope).Ok? ==> ResolvedConstType(a, ref, scope, fuel) == Ok(a.resolver.resolveExpr(t, scope).value)
    ensures a.resolver.resolveExpr(t, scope).Err? ==> ResolvedConstType(a, ref, scope, fuel) == Err(ErrResolve(a.resolver.resolveExpr(t, scope).error))
    decreases n
  {
    match scope.entity(ref).value.0.constDef
    case ValueConst(v) =>
    case RefConst(next) => ConstChainResolves(a, next, scope, n - 1, t, fuel - 1);
  }

  /** Conversely, a resolved constant type always comes from such a chain. */
  lemma {:induction false} ResolvedConstTypeFromChain(a: Analyzer, ref: EntityRef, scope: Scope, fuel: nat)
    requires ResolvedConstType(a, ref, scope, fuel).Ok?
    ensures exists n: nat, t :: n <= fuel && ConstChain(scope, ref, n, t) && a.resolver.resolveExpr(t, scope) == Ok(ResolvedConstType(a, ref, scope, fuel).value)
    decreases fuel
  {
    match scope.entity(ref).value.0.constDef
    case ValueConst(v) =>
      assert ConstChain(scope, ref, 0, v);
    case RefConst(next) =>
      ResolvedConstTypeFromChain(a, next, scope, fuel - 1);
      var n: nat, t :| n <= fuel - 1 && ConstChain(scope, next, n, t) && a.resolver.resolveExpr(t, scope) == Ok(ResolvedConstType(a, next, scope, fuel - 1).value);
      assert ConstChain(scope, ref, n + 1, t);
  }

  /** A constant sender naming an entity that is not a constant is rejected. */
  lemma ConstRefToNonConst(a: Analyzer, ref: EntityRef, scope: Scope, fuel: nat)
    requires scope.entity(ref).Ok? && scope.entity(ref).value.0.kind != ConstEntity
    ensures ResolvedConstType(a, ref, scope, fuel) == Err(ErrEntityNotConst(scope.entity(ref).value.0.kind))
  {
  }

  // ---------------------------------------------------------------------------
  // Sender and receiver types

  /** getSenderType: an empty sender is rejected; a constant reference wins over a port
      address; the component's own `out` cannot be read; the component's own `in` is typed by
      its declared inport; any other node's outport by the node's resolved interface. */
  function SenderType(a: Analyzer, sender: SenderSide, inports: map<string, Port>, nodes: map<string, Node>, nodesIfaces: map<string, Interface>, scope: Scope, fuel: nat): (r: Result<Expr, NetError>)
    ensures sender.portAddr.None? && sender.constRef.None? ==> r == Err(ErrSenderIsEmpty)
    ensures sender.constRef.Some? ==> r == ResolvedConstType(a, sender.constRef.value, scope, fuel)
    ensures sender.constRef.None? && sender.portAddr.Some? && sender.portAddr.value.node == "out" ==> r == Err(ErrReadSelfOut)
    ensures sender.constRef.None? && sender.portAddr.Some? && sender.portAddr.value.node == "in" ==>
              r == (if sender.portAddr.value.port in inports then Ok(inports[sender.portAddr.value.port].typeExpr)
                    else Err(ErrInportNotFound(sender.portAddr.value.port)))
    ensures sender.constRef.None? && sender.portAddr.Some? && sender.portAddr.value.node != "out" && sender.portAddr.value.node != "in" ==>
              r == NodeOutportType(a, sender.portAddr.value, nodes, nodesIfaces, scope)
  {
    if sender.portAddr.None? && sender.constRef.None? then Err(ErrSenderIsEmpty)
    else if sender.constRef.Some? then ResolvedConstType(a, sender.constRef.value, scope, fuel)
    else
      var addr := sender.portAddr.value;
      if addr.node == "out" then Err(ErrReadSelfOut)
      else if addr.node == "in" then
        if addr.port in inports then Ok(inports[addr.port].typeExpr) else Err(ErrInportNotFound(addr.port))
      else NodeOutportType(a, addr, nodes, nodesIfaces, scope)
  }

  /** Which getNodeInportType the receivers are typed with: the one the source has, or the
      corrected one. */
  datatype InportLookup = AsWritten | Intended

  /** getReceiverType: the component's own `in` cannot be written; the component's own `out`
      is typed by its declared outport; any other node's inport by getNodeInportType, as
      written or corrected according to `lookup`. */
  function ReceiverType(a: Analyzer, lookup: InportLookup, receiver: ReceiverSide, outports: map<string, Port>, nodes: map<string, Node>, nodesIfaces: map<string, Interface>, scope: Scope): (r: Result<Expr, NetError>)
    ensures receiver.portAddr.node == "in" ==> r == Err(ErrWriteSelfIn)
    ensures receiver.portAddr.node == "out" ==>
              r == (if receiver.portAddr.port in outports then Ok(outports[receiver.portAddr.port].typeExpr)
                    else Err(ErrInportNotFound(receiver.portAddr.port)))
    ensures receiver.portAddr.node != "in" && receiver.portAddr.node != "out" && lookup.AsWritten? ==>
              r == NodeInportType(a, receiver.portAddr, nodes, scope)
    ensures receiver.portAddr.node != "in" && receiver.portAddr.node != "out" && lookup.Intended? ==>
              r == NodeInportTypeIntended(a, receiver.portAddr, nodes, nodesIfaces, scope)
  {
    var addr := receiver.portAddr;
    if addr.node == "in" then Err(ErrWriteSelfIn)
    else if addr.node == "out" then
      if addr.port in outports then Ok(outports[addr.port].typeExpr) else Err(ErrInportNotFound(addr.port))
    else match lookup
      case AsWritten => NodeInportType(a, addr, nodes, scope)
      case Intended => NodeInportTypeIntended(a, addr, nodes, nodesIfaces, scope)
  }

  // ---------------------------------------------------------------------------
  // The typing of a network, connection by connection

  /** The type a connection carries: its sender's type, or with selectors the type of the
      struct field at the end of the selector path. */
  function CarriedType(a: Analyzer, conn: Connection, iface: Interface, nodes: map<string, Node>, nodesIfaces: map<string, Interface>, scope: Scope, fuel: nat): Result<Expr, NetError>
  {
    match SenderType(a, conn.senderSide, iface.io.inports, nodes, nodesIfaces, scope, fuel)
    case Err(e) => Err(e)
    case Ok(t) =>
      if |conn.senderSide.selectors| > 0 then
        match a.getStructFieldTypeByPath(t, conn.senderSide.selectors)
        case Err(m) => Err(ErrStructField(m))
        case Ok(ft) => Ok(ft)
      else Ok(t)
  }

  /** Each receiver in order must have a type and accept `t`; the first that does not decides. */
  function ReceiversCheck(a: Analyzer, lookup: InportLookup, t: Expr, receivers: seq<ReceiverSide>, iface: Interface, nodes: map<string, Node>, nodesIfaces: map<string, Interface>, scope: Scope): Outcome<NetError>
    decreases |receivers|
  {
    if receivers == [] then Pass
    else match ReceiverType(a, lookup, receivers[0], iface.io.outports, nodes, nodesIfaces, scope)
      case Err(e) => Fail(e)
      case Ok(rt) =>
        match a.resolver.isSubtypeOf(t, rt, scope)
        case Fail(m) => Fail(ErrSubtype(m))
        case Pass => ReceiversCheck(a, lookup, t, receivers[1..], iface, nodes, nodesIfaces, scope)
  }

  function ConnectionCheck(a: Analyzer, lookup: InportLookup, conn: Connection, iface: Interface, nodes: map<string, Node>, nodesIfaces: map<string, Interface>, scope: Scope, fuel: nat): Outcome<NetError>
  {
    match CarriedType(a, conn, iface, nodes, nodesIfaces, scope, fuel)
    case Err(e) => Fail(e)
    case Ok(t) => ReceiversCheck(a, lookup, t, conn.receiverSides, iface, nodes, nodesIfaces, scope)
  }

  /** The connections in order; the first failing one decides. */
  function NetCheck(a: Analyzer, lookup: InportLookup, net: seq<Connection>, iface: Interface, nodes: map<string, Node>, nodesIfaces: map<string, Interface>, scope: Scope, fuel: nat): Outcome<NetError>
    decreases |net|
  {
    if net == [] then Pass
    else match ConnectionCheck(a, lookup, net[0], iface, nodes, nodesIfaces, scope, fuel)
      case Fail(e) => Fail(e)
      case Pass => NetCheck(a, lookup, net[1..], iface, nodes, nodesIfaces, scope, fuel)
  }

  /** A connection passes exactly when its carried type exists and every receiver has a type
      that accepts it. */
  lemma {:induction false} ReceiversCheckPass(a: Analyzer, lookup: InportLookup, t: Expr, receivers: seq<ReceiverSide>, iface: Interface, nodes: map<string, Node>, nodesIfaces: map<string, Interface>, scope: Scope)
    ensures ReceiversCheck(a, lookup, t, receivers, iface, nodes, nodesIfaces, scope).Pass? <==>
            forall j :: 0 <= j < |receivers| ==>
              ReceiverType(a, lookup, receivers[j], iface.io.outports, nodes, nodesIfaces, scope).Ok? &&
              a.resolver.isSubtypeOf(t, ReceiverType(a, lookup, receivers[j], iface.io.outports, nodes, nodesIfaces, scope).value, scope).Pass?
    decreases |receivers|
  {
    if receivers != [] {
      ReceiversCheckPass(a, lookup, t, receivers[1..], iface, nodes, nodesIfaces, scope);
      assert forall j :: 1 <= j < |receivers| ==> receivers[1..][j - 1] == receivers[j];
    }
  }

  /** The network passes exactly when every connection passes. */
  lemma {:induction false} NetCheckPass(a: Analyzer, lookup: InportLookup, net: seq<Connection>, iface: Interface, nodes: map<string, Node>, nodesIfaces: map<string, Interface>, scope: Scope, fuel: nat)
    ensures NetCheck(a, lookup, net, iface, nodes, nodesIfaces, scope, fuel).Pass? <==>
            forall i :: 0 <= i < |net| ==> ConnectionCheck(a, lookup, net[i], iface, nodes, nodesIfaces, scope, fuel).Pass?
    decreases |net|
  {
    if net != [] {
      NetCheckPass(a, lookup, net[1..], iface, nodes, nodesIfaces, scope, fuel);
      assert forall i :: 1 <= i < |net| ==> net[1..][i - 1] == net[i];
    }
  }

  /** A failing network fails with the error of its first failing connection. */
  lemma {:induction false} NetCheckFirstFailure(a: Analyzer, lookup: InportLookup, net: seq<Connection>, iface: Interface, nodes: map<string, Node>, nodesIfaces: map<string, Interface>, scope: Scope, fuel: nat)
    requires NetCheck(a, lookup, net, iface, nodes, nodesIfaces, scope, fuel).Fail?
    ensures exists i :: 0 <= i < |net| && ConnectionCheck(a, lookup, net[i], iface, nodes, nodesIfaces, scope, fuel) == NetCheck(a, lookup, net, iface, nodes, nodesIfaces, scope, fuel)
                        && forall k :: 0 <= k < i ==> ConnectionCheck(a, lookup, net[k], iface, nodes, nodesIfaces, scope, fuel).Pass?
    decreases |net|
  {
    if ConnectionCheck(a, lookup, net[0], iface, nodes, nodesIfaces, scope, fuel).Pass? {
      NetCheckFirstFailure(a, lookup, net[1..], iface, nodes, nodesIfaces, scope, fuel);
      var i :| 0 <= i < |net[1..]| && ConnectionCheck(a, lookup, net[1..][i], iface, nodes, nodesIfaces, scope, fuel) == NetCheck(a, lookup, net[1..], iface, nodes, nodesIfaces, scope, fuel)
               && forall k :: 0 <= k < i ==> ConnectionCheck(a, lookup, net[1..][k], iface, nodes, nodesIfaces, scope, fuel).Pass?;
      assert forall k :: 1 <= k < i + 1 ==> net[1..][k - 1] == net[k];
      assert net[1..][i] == net[i + 1];
    } else {
      assert ConnectionCheck(a, lookup, net[0], iface, nodes, nodesIfaces, scope, fuel) == NetCheck(a, lookup, net, iface, nodes, nodesIfaces, scope, fuel);
    }
  }

  /** With selectors, the type carried forward is the field type at the end of the path, and
      a path that does not resolve rejects the connection. */
  lemma SelectorsProjectSenderType(a: Analyzer, lookup: InportLookup, conn: Connection, iface: Interface, nodes: map<string, Node>, nodesIfaces: map<string, Interface>, scope: Scope, fuel: nat)
    requires |conn.senderSide.selectors| > 0
    requires SenderType(a, conn.senderSide, iface.io.inports, nodes, nodesIfaces, scope, fuel).Ok?
    ensures var path := a.getStructFieldTypeByPath(SenderType(a, conn.senderSide, iface.io.inports, nodes, nodesIfaces, scope, fuel).value, conn.senderSide.selectors);
            (path.Ok? ==> CarriedType(a, conn, iface, nodes, nodesIfaces, scope, fuel) == Ok(path.value)) &&
            (path.Err? ==> ConnectionCheck(a, lookup, conn, iface, nodes, nodesIfaces, scope, fuel) == Fail(ErrStructField(path.error)))
  {
  }

  /** The receiver is typed the same by both lookups: it is the component's own `in` or
      `out`, or a node node analysis accepted whose entity is an interface or a component
      without the struct-inports directive, with its resolved interface in `nodesIfaces`. */
  ghost predicate PlainReceiver(a: Analyzer, receiver: ReceiverSide, nodes: map<string, Node>, nodesIfaces: map<string, Interface>, scope: Scope)
  {
    var n := receiver.portAddr.node;
    n == "in" || n == "out" ||
    (n in nodes && scope.entity(nodes[n].entityRef).Ok? &&
     (scope.entity(nodes[n].entityRef).value.0.kind == InterfaceEntity ||
      AutoportsDirective !in scope.entity(nodes[n].entityRef).value.0.component.directives) &&
     ComponentNodes.NodeHead(a, nodes[n], scope).Ok? &&
     n in nodesIfaces && nodesIfaces[n] == ComponentNodes.NodeHead(a, nodes[n], scope).value.0)
  }

  /** As written, a network with a receiver on an inport of a struct-inports node that node
      analysis accepted never type-checks, whatever that inport is. */
  lemma StructInportsReceiverRejectsNet(a: Analyzer, net: seq<Connection>, iface: Interface, nodes: map<string, Node>, nodesIfaces: map<string, Interface>, scope: Scope, fuel: nat, i: int, j: int)
    requires 0 <= i < |net| && 0 <= j < |net[i].receiverSides|
    requires var addr := net[i].receiverSides[j].portAddr;
             addr.node != "in" && addr.node != "out" && addr.node in nodes && scope.entity(nodes[addr.node].entityRef).Ok? &&
             scope.entity(nodes[addr.node].entityRef).value.0.kind == ComponentEntity &&
             AutoportsDirective in scope.entity(nodes[addr.node].entityRef).value.0.component.directives &&
             ComponentNodes.NodeHead(a, nodes[addr.node], scope).Ok?
    ensures NetCheck(a, AsWritten, net, iface, nodes, nodesIfaces, scope, fuel).Fail?
  {
    var receiver := net[i].receiverSides[j];
    StructInportsNodeInportRejected(a, nodes, scope, receiver.portAddr);
    NetCheckPass(a, AsWritten, net, iface, nodes, nodesIfaces, scope, fuel);
    var carried := CarriedType(a, net[i], iface, nodes, nodesIfaces, scope, fuel);
    if carried.Ok? {
      ReceiversCheckPass(a, AsWritten, carried.value, net[i].receiverSides, iface, nodes, nodesIfaces, scope);
    }
  }

  lemma {:induction false} ReceiversCheckLookupsAgree(a: Analyzer, t: Expr, receivers: seq<ReceiverSide>, iface: Interface, nodes: map<string, Node>, nodesIfaces: map<string, Interface>, scope: Scope)
    requires forall j :: 0 <= j < |receivers| ==> PlainReceiver(a, receivers[j], nodes, nodesIfaces, scope)
    ensures ReceiversCheck(a, AsWritten, t, receivers, iface, nodes, nodesIfaces, scope) == ReceiversCheck(a, Intended, t, receivers, iface, nodes, nodesIfaces, scope)
    decreases |receivers|
  {
    if receivers != [] {
      var addr := receivers[0].portAddr;
      assert PlainReceiver(a, receivers[0], nodes, nodesIfaces, scope);
      if addr.node != "in" && addr.node != "out" {
        InportLookupsAgreeOtherwise(a, nodes, nodesIfaces, scope, addr);
      }
      assert forall j :: 0 <= j < |receivers[1..]| ==> receivers[1..][j] == receivers[j + 1];
      ReceiversCheckLookupsAgree(a, t, receivers[1..], iface, nodes, nodesIfaces, scope);
    }
  }

  /** When no receiver of the network is on a struct-inports node, the correction changes
      nothing: both lookups give the same verdict on the whole network. */
  lemma {:induction false} NetCheckLookupsAgree(a: Analyzer, net: seq<Connection>, iface: Interface, nodes: map<string, Node>, nodesIfaces: map<string, Interface>, scope: Scope, fuel: nat)
    requires forall i, j :: 0 <= i < |net| && 0 <= j < |net[i].receiverSides| ==> PlainReceiver(a, net[i].receiverSides[j], nodes, nodesIfaces, scope)
    ensures NetCheck(a, AsWritten, net, iface, nodes, nodesIfaces, scope, fuel) == NetCheck(a, Intended, net, iface, nodes, nodesIfaces, scope, fuel)
    decreases |net|
  {
    if net != [] {
      var carried := CarriedType(a, net[0], iface, nodes, nodesIfaces, scope, fuel);
      if carried.Ok? {
        assert forall j :: 0 <= j < |net[0].receiverSides| ==> PlainReceiver(a, net[0].receiverSides[j], nodes, nodesIfaces, scope);
        ReceiversCheckLookupsAgree(a, carried.value, net[0].receiverSides, iface, nodes, nodesIfaces, scope);
      }
      assert forall i :: 0 <= i < |net[1..]| ==> net[1..][i] == net[i + 1];
      NetCheckLookupsAgree(a, net[1..], iface, nodes, nodesIfaces, scope, fuel);
    }
  }

  // ---------------------------------------------------------------------------
  // The port usage ledger

  /** How the network uses one node's ports. */
  datatype NodeNetUsage = NodeNetUsage(inports: set<string>, outports: set<string>)

  type Usage = map<string, NodeNetUsage>

  function Entry(u: Usage, node: string): NodeNetUsage
  {
    if node in u then u[node] else NodeNetUsage({}, {})
  }

  function MarkOutport(u: Usage, node: string, port: string): Usage
  {
    u[node := Entry(u, node).(outports := Entry(u, node).outports + {port})]
  }

  function MarkInport(u: Usage, node: string, port: string): Usage
  {
    u[node := Entry(u, node).(inports := Entry(u, node).inports + {port})]
  }

  /** A port-address sender marks its outport read; a constant sender marks nothing. */
  function MarkSender(u: Usage, sender: SenderSide): Usage
  {
    if sender.portAddr.Some? then MarkOutport(u, sender.portAddr.value.node, sender.portAddr.value.port) else u
  }

  function MarkReceivers(u: Usage, receivers: seq<ReceiverSide>): Usage
    decreases |receivers|
  {
    if receivers == [] then u
    else
      var last := receivers[|receivers| - 1].portAddr;
      MarkInport(MarkReceivers(u, receivers[..|receivers| - 1]), last.node, last.port)
  }

  /** The ledger after the given connections have been checked in order. */
  function UsageOf(net: seq<Connection>): Usage
    decreases |net|
  {
    if net == [] then map[]
    else
      var conn := net[|net| - 1];
      MarkReceivers(MarkSender(UsageOf(net[..|net| - 1]), conn.senderSide), conn.receiverSides)
  }

  predicate SenderReads(conn: Connection, node: string, port: string)
  {
    conn.senderSide.portAddr.Some? && conn.senderSide.portAddr.value.node == node && conn.senderSide.portAddr.value.port == port
  }

  predicate ReceiverWrites(conn: Connection, node: string, port: string)
  {
    exists j :: 0 <= j < |conn.receiverSides| && conn.receiverSides[j].portAddr.node == node && conn.receiverSides[j].portAddr.port == port
  }

  predicate Mentions(conn: Connection, node: string)
  {
    (conn.senderSide.portAddr.Some? && conn.senderSide.portAddr.value.node == node) ||
    exists j :: 0 <= j < |conn.receiverSides| && conn.receiverSides[j].portAddr.node == node
  }

  lemma {:induction false} MarkReceiversEntry(u: Usage, receivers: seq<ReceiverSide>, node: string)
    ensures Entry(MarkReceivers(u, receivers), node).outports == Entry(u, node).outports
    ensures forall port :: port in Entry(MarkReceivers(u, receivers), node).inports <==>
              (port in Entry(u, node).inports || exists j :: 0 <= j < |receivers| && receivers[j].portAddr.node == node && receivers[j].portAddr.port == port)
    ensures node in MarkReceivers(u, receivers) <==> (node in u || exists j :: 0 <= j < |receivers| && receivers[j].portAddr.node == node)
    decreases |receivers|
  {
    if receivers != [] {
      var init := receivers[..|receivers| - 1];
      MarkReceiversEntry(u, init, node);
      assert forall j :: 0 <= j < |init| ==> init[j] == receivers[j];
    }
  }

  /** The ledger records an inport of a node exactly when some receiver of the network writes
      it, an outport exactly when some port-address sender reads it, and a node exactly when
      some connection mentions it. */
  lemma {:induction false} UsageOfRecordsPorts(net: seq<Connection>, node: string, port: string)
    ensures port in Entry(UsageOf(net), node).inports <==> exists i :: 0 <= i < |net| && ReceiverWrites(net[i], node, port)
    ensures port in Entry(UsageOf(net), node).outports <==> exists i :: 0 <= i < |net| && SenderReads(net[i], node, port)
    ensures node in UsageOf(net) <==> exists i :: 0 <= i < |net| && Mentions(net[i], node)
    decreases |net|
  {
    if net != [] {
      var init := net[..|net| - 1];
      var conn := net[|net| - 1];
      UsageOfRecordsPorts(init, node, port);
      var afterSender := MarkSender(UsageOf(init), conn.senderSide);
      MarkReceiversEntry(afterSender, conn.receiverSides, node);
      assert forall i :: 0 <= i < |init| ==> init[i] == net[i];
      assert UsageOf(net) == MarkReceivers(afterSender, conn.receiverSides);
    }
  }

  // ---------------------------------------------------------------------------
  // Node usage

  /** A node is fully used: it appears in the ledger, all its inports are written and, if it
      has outports, at least one of them is read. */
  predicate NodeUsed(iface: Interface, usage: Usage, node: string)
  {
    node in usage && iface.io.inports.Keys <= usage[node].inports &&
    (|iface.io.outports| == 0 || exists p :: p in iface.io.outports && p in usage[node].outports)
  }

  predicate AllNodesUsed(nodesIfaces: map<string, Interface>, usage: Usage)
  {
    forall node :: node in nodesIfaces ==> NodeUsed(nodesIfaces[node], usage, node)
  }

  /** The error names a node that really is unused in the way it says. */
  predicate IsUsageError(nodesIfaces: map<string, Interface>, usage: Usage, e: NetError)
  {
    match e
    case ErrUnusedNode(n) => n in nodesIfaces && n !in usage
    case ErrUnusedNodeInport(n, p) => n in nodesIfaces && n in usage && p in nodesIfaces[n].io.inports && p !in usage[n].inports
    case ErrUnusedNodeOutports(n) =>
      n in nodesIfaces && n in usage && nodesIfaces[n].io.inports.Keys <= usage[n].inports &&
      |nodesIfaces[n].io.outports| > 0 && forall p :: p in nodesIfaces[n].io.outports ==> p !in usage[n].outports
    case _ => false
  }

  /** checkNodesUsage. The nodes, and each node's inports and outports, are visited in an
      unspecified order, as Go's map iteration is. */
  method CheckNodesUsage(nodesIfaces: map<string, Interface>, usage: Usage) returns (r: Outcome<NetError>)
    ensures r.Pass? <==> AllNodesUsed(nodesIfaces, usage)
    ensures r.Fail? ==> IsUsageError(nodesIfaces, usage, r.error)
  {
    var remaining := nodesIfaces.Keys;
    while remaining != {}
      invariant remaining <= nodesIfaces.Keys
      invariant forall n :: n in nodesIfaces && n !in remaining ==> NodeUsed(nodesIfaces[n], usage, n)
      decreases remaining
    {
      var nodeName :| nodeName in remaining;
      var nodeIface := nodesIfaces[nodeName];
      if nodeName !in usage {
        return Fail(ErrUnusedNode(nodeName));
      }
      var nodeUsage := usage[nodeName];
      var inports := nodeIface.io.inports.Keys;
      while inports != {}
        invariant inports <= nodeIface.io.inports.Keys
        invariant forall p :: p in nodeIface.io.inports && p !in inports ==> p in nodeUsage.inports
        decreases inports
      {
        var inportName :| inportName in inports;
        if inportName !in nodeUsage.inports {
          return Fail(ErrUnusedNodeInport(nodeName, inportName));
        }
        inports := inports - {inportName};
      }
      if |nodeIface.io.outports| != 0 {
        var atLeastOneOutportIsUsed := false;
        var outports := nodeIface.io.outports.Keys;
        while outports != {}
          invariant outports <= nodeIface.io.outports.Keys
          invariant atLeastOneOutportIsUsed <==> exists p :: p in nodeIface.io.outports && p !in outports && p in nodeUsage.outports
          decreases outports
        {
          var outportName :| outportName in outports;
          if outportName in nodeUsage.outports {
            atLeastOneOutportIsUsed := true;
          }
          outports := outports - {outportName};
        }
        if !atLeastOneOutportIsUsed {
          return Fail(ErrUnusedNodeOutports(nodeName));
        }
      }
      remaining := remaining - {nodeName};
    }
    return Pass;
  }

  /** The receiver loop of analyzeComponentNetwork: each receiver in order is typed, must
      accept the carried type `t`, and has its inport marked as written. */
  method AnalyzeReceivers(a: Analyzer, lookup: InportLookup, t: Expr, receivers: seq<ReceiverSide>, compInterface: Interface, nodes: map<string, Node>, nodesIfaces: map<string, Interface>, scope: Scope, usage: Usage)
    returns (r: Result<Usage, NetError>)
    ensures ReceiversCheck(a, lookup, t, receivers, compInterface, nodes, nodesIfaces, scope).Fail? ==>
              r == Err(ReceiversCheck(a, lookup, t, receivers, compInterface, nodes, nodesIfaces, scope).error)
    ensures ReceiversCheck(a, lookup, t, receivers, compInterface, nodes, nodesIfaces, scope).Pass? ==>
              r == Ok(MarkReceivers(usage, receivers))
  {
    var nodesUsage := usage;
    var j := 0;
    while j < |receivers|
      invariant 0 <= j <= |receivers|
      invariant nodesUsage == MarkReceivers(usage, receivers[..j])
      invariant ReceiversCheck(a, lookup, t, receivers, compInterface, nodes, nodesIfaces, scope) == ReceiversCheck(a, lookup, t, receivers[j..], compInterface, nodes, nodesIfaces, scope)
    {
      var receiver := receivers[j];
      assert receivers[j..][0] == receiver && receivers[j..][1..] == receivers[j + 1..];
      assert receivers[..j + 1][..j] == receivers[..j];
      var inportTypeExpr := ReceiverType(a, lookup, receiver, compInterface.io.outports, nodes, nodesIfaces, scope);
      if inportTypeExpr.Err? {
        return Err(inportTypeExpr.error);
      }
      var subtypeErr := a.resolver.isSubtypeOf(t, inportTypeExpr.value, scope);
      if subtypeErr.Fail? {
        return Err(ErrSubtype(subtypeErr.error));
      }

      var receiverNodeName := receiver.portAddr.node;
      var inportName := receiver.portAddr.port;
      if receiverNodeName !in nodesUsage {
        nodesUsage := nodesUsage[receiverNodeName := NodeNetUsage({}, {})];
      }
      nodesUsage := nodesUsage[receiverNodeName := nodesUsage[receiverNodeName].(inports := nodesUsage[receiverNodeName].inports + {inportName})];
      j := j + 1;
    }
    assert receivers[..j] == receivers;
    return Ok(nodesUsage);
  }

  /** One iteration of analyzeComponentNetwork's loop: types the connection, marks the ports
      it uses in the ledger and checks every receiver against the carried type. */
  method AnalyzeConnection(a: Analyzer, lookup: InportLookup, conn: Connection, compInterface: Interface, nodes: map<string, Node>, nodesIfaces: map<string, Interface>, scope: Scope, fuel: nat, usage: Usage)
    returns (r: Result<Usage, NetError>)
    ensures ConnectionCheck(a, lookup, conn, compInterface, nodes, nodesIfaces, scope, fuel).Fail? ==>
              r == Err(ConnectionCheck(a, lookup, conn, compInterface, nodes, nodesIfaces, scope, fuel).error)
    ensures ConnectionCheck(a, lookup, conn, compInterface, nodes, nodesIfaces, scope, fuel).Pass? ==>
              r == Ok(MarkReceivers(MarkSender(usage, conn.senderSide), conn.receiverSides))
  {
    var senderType := SenderType(a, conn.senderSide, compInterface.io.inports, nodes, nodesIfaces, scope, fuel);
    if senderType.Err? {
      return Err(senderType.error);
    }

    var nodesUsage := usage;
    if conn.senderSide.portAddr.Some? {
      var senderNodeName := conn.senderSide.portAddr.value.node;
      var outportName := conn.senderSide.portAddr.value.port;
      if senderNodeName !in nodesUsage {
        nodesUsage := nodesUsage[senderNodeName := NodeNetUsage({}, {})];
      }
      nodesUsage := nodesUsage[senderNodeName := nodesUsage[senderNodeName].(outports := nodesUsage[senderNodeName].outports + {outportName})];
    }
    ghost var afterSender := nodesUsage;
    assert afterSender == MarkSender(usage, conn.senderSide);

    var outportTypeExpr := senderType.value;
    if |conn.senderSide.selectors| > 0 {
      var lastFieldType := a.getStructFieldTypeByPath(outportTypeExpr, conn.senderSide.selectors);
      if lastFieldType.Err? {
        return Err(ErrStructField(lastFieldType.error));
      }
      outportTypeExpr := lastFieldType.value;
    }
    assert CarriedType(a, conn, compInterface, nodes, nodesIfaces, scope, fuel) == Ok(outportTypeExpr);

    r := AnalyzeReceivers(a, lookup, outportTypeExpr, conn.receiverSides, compInterface, nodes, nodesIfaces, scope, nodesUsage);
  }

  lemma NetCheckStep(a: Analyzer, lookup: InportLookup, net: seq<Connection>, i: int, iface: Interface, nodes: map<string, Node>, nodesIfaces: map<string, Interface>, scope: Scope, fuel: nat)
    requires 0 <= i < |net|
    ensures NetCheck(a, lookup, net[i..], iface, nodes, nodesIfaces, scope, fuel) ==
            match ConnectionCheck(a, lookup, net[i], iface, nodes, nodesIfaces, scope, fuel)
            case Fail(e) => Fail(e)
            case Pass => NetCheck(a, lookup, net[i + 1..], iface, nodes, nodesIfaces, scope, fuel)
  {
    assert net[i..][0] == net[i] && net[i..][1..] == net[i + 1..];
  }

  lemma UsageOfStep(net: seq<Connection>, i: int)
    requires 0 <= i < |net|
    ensures UsageOf(net[..i + 1]) == MarkReceivers(MarkSender(UsageOf(net[..i]), net[i].senderSide), net[i].receiverSides)
  {
    assert net[..i + 1][..i] == net[..i];
  }

  /** analyzeComponentNetwork: the connections are typed in order and the first error is
      returned; if all type-check, the usage of the nodes recorded on the way is checked; on
      success the network comes back unchanged. `fuel` bounds constant reference chains. */
  method AnalyzeComponentNetwork(a: Analyzer, lookup: InportLookup, net: seq<Connection>, compInterface: Interface, nodes: map<string, Node>, nodesIfaces: map<string, Interface>, scope: Scope, fuel: nat)
    returns (r: Result<seq<Connection>, NetError>)
    ensures NetCheck(a, lookup, net, compInterface, nodes, nodesIfaces, scope, fuel).Fail? ==>
              r == Err(NetCheck(a, lookup, net, compInterface, nodes, nodesIfaces, scope, fuel).error)
    ensures NetCheck(a, lookup, net, compInterface, nodes, nodesIfaces, scope, fuel).Pass? ==>
              (r.Ok? <==> AllNodesUsed(nodesIfaces, UsageOf(net))) &&
              (r.Err? ==> IsUsageError(nodesIfaces, UsageOf(net), r.error))
    ensures r.Ok? ==> r.value == net
  {
    var nodesUsage: Usage := map[];
    var i := 0;
    while i < |net|
      invariant 0 <= i <= |net|
      invariant nodesUsage == UsageOf(net[..i])
      invariant NetCheck(a, lookup, net, compInterface, nodes, nodesIfaces, scope, fuel) == NetCheck(a, lookup, net[i..], compInterface, nodes, nodesIfaces, scope, fuel)
    {
      NetCheckStep(a, lookup, net, i, compInterface, nodes, nodesIfaces, scope, fuel);
      UsageOfStep(net, i);
      var step := AnalyzeConnection(a, lookup, net[i], compInterface, nodes, nodesIfaces, scope, fuel, nodesUsage);
      if step.Err? {
        return Err(step.error);
      }
      nodesUsage := step.value;
      i := i + 1;
    }
    assert net[..i] == net;

    var usageErr := CheckNodesUsage(nodesIfaces, nodesUsage);
    if usageErr.Fail? {
      return Err(usageErr.error);
    }
    return Ok(net);
  }
}
