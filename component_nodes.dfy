/** The node resolver of internal/compiler/analyzer/component_nodes.go: each node of a
    component is checked against the entity it instantiates, gets its resolved interface
    (synthesised from a struct type argument for components with the struct-inports
    directive) and its resolved type arguments, recursively through its dependencies. */
module ComponentNodes {
  import opened Wrappers
  import opened Sourcecode

  datatype NodeError =
    | ErrScopeEntity(msg: string)
    | ErrNodeWrongEntity(kind: EntityKind)
    | ErrBindDirectiveArgs
    | ErrInterfaceNodeBindDirective
    | ErrNonComponentNodeWithDI
    | ErrNormNodeBind
    | ErrExternOverloadingNodeArgs
    | ErrNormalInportsWithStructInportsDirective
    | ErrStructInportsTypeParamsCount
    | ErrStructInportsTypeParamConstr
    | ErrStructInportsNodeTypeArgsCount
    | ErrStructInportsArgNonStruct
    | ErrNodeTypeArgsMissing
    | ErrNodeTypeArgsTooMuch
    | ErrResolve(msg: string)

  // ---------------------------------------------------------------------------
  // The resolved interface of a node

  /** The inports synthesised from a struct's fields: one non-array port per field, typed by
      the field's type. */
  function StructInportsOf(fields: map<string, Expr>): map<string, Port>
  {
    map f | f in fields :: Port(fields[f], false, ZeroMeta)
  }

  /** The interface synthesised for a struct-inports node: the struct's fields as inports and
      a single outport "v" carrying the whole struct. */
  function StructInportsInterface(iface: Interface, resolvedArg: Expr, inports: map<string, Port>): Interface
  {
    var vMeta := if "v" in iface.io.outports then iface.io.outports["v"].meta else ZeroMeta;
    Interface(iface.typeParams, IO(inports, map["v" := Port(resolvedArg, false, vMeta)]), iface.meta)
  }

  /** getResolvedNodeInterface, the specification: the guards in the order the source takes
      them, then the entity's interface or, with the struct-inports directive, the
      synthesised one. */
  function ResolvedNodeInterface(a: Analyzer, entity: Entity, hasBind: bool, node: Node, scope: Scope): Result<Interface, NodeError>
  {
    if entity.kind == InterfaceEntity then
      if hasBind then Err(ErrInterfaceNodeBindDirective)
      else if node.hasDeps then Err(ErrNonComponentNodeWithDI)
      else Ok(entity.interface)
    else
      var directives := entity.component.directives;
      var externArgs := if ExternDirective in directives then directives[ExternDirective] else [];
      if hasBind && ExternDirective !in directives then Err(ErrNormNodeBind)
      else if |externArgs| > 1 && |node.typeArgs| != 1 then Err(ErrExternOverloadingNodeArgs)
      else
        var iface := entity.component.interface;
        if AutoportsDirective !in directives then Ok(iface)
        else if |iface.io.inports| != 0 then Err(ErrNormalInportsWithStructInportsDirective)
        else if |iface.typeParams| != 1 then Err(ErrStructInportsTypeParamsCount)
        else match a.resolver.resolveExpr(iface.typeParams[0].constr, scope)
          case Err(m) => Err(ErrResolve(m))
          case Ok(constr) =>
            if !constr.StructLit? then Err(ErrStructInportsTypeParamConstr)
            else if |node.typeArgs| != 1 then Err(ErrStructInportsNodeTypeArgsCount)
            else match a.resolver.resolveExpr(node.typeArgs[0], scope)
              case Err(m) => Err(ErrResolve(m))
              case Ok(arg) =>
                if !arg.StructLit? then Err(ErrStructInportsArgNonStruct)
                else Ok(StructInportsInterface(iface, arg, StructInportsOf(arg.fields)))
  }

  /** getResolvedNodeInterface. The struct's fields are visited in an unspecified order, as
      Go's map iteration is; the result does not depend on it. */
  method GetResolvedNodeInterface(a: Analyzer, entity: Entity, hasBind: bool, node: Node, scope: Scope) returns (r: Result<Interface, NodeError>)
    ensures r == ResolvedNodeInterface(a, entity, hasBind, node, scope)
  {
    if entity.kind == InterfaceEntity {
      if hasBind {
        return Err(ErrInterfaceNodeBindDirective);
      }
      if node.hasDeps {
        return Err(ErrNonComponentNodeWithDI);
      }
      return Ok(entity.interface);
    }

    var isRuntimeFunc := ExternDirective in entity.component.directives;
    var runtimeFuncArgs := if isRuntimeFunc then entity.component.directives[ExternDirective] else [];
    if hasBind && !isRuntimeFunc {
      return Err(ErrNormNodeBind);
    }
    if |runtimeFuncArgs| > 1 && |node.typeArgs| != 1 {
      return Err(ErrExternOverloadingNodeArgs);
    }

    var iface := entity.component.interface;
    if AutoportsDirective !in entity.component.directives {
      return Ok(iface);
    }
    if |iface.io.inports| != 0 {
      return Err(ErrNormalInportsWithStructInportsDirective);
    }
    if |iface.typeParams| != 1 {
      return Err(ErrStructInportsTypeParamsCount);
    }
    var resolvedTypeParamConstr := a.resolver.resolveExpr(iface.typeParams[0].constr, scope);
    if resolvedTypeParamConstr.Err? {
      return Err(ErrResolve(resolvedTypeParamConstr.error));
    }
    if !resolvedTypeParamConstr.value.StructLit? {
      return Err(ErrStructInportsTypeParamConstr);
    }
    if |node.typeArgs| != 1 {
      return Err(ErrStructInportsNodeTypeArgsCount);
    }
    var resolvedNodeArg := a.resolver.resolveExpr(node.typeArgs[0], scope);
    if resolvedNodeArg.Err? {
      return Err(ErrResolve(resolvedNodeArg.error));
    }
    if !resolvedNodeArg.value.StructLit? {
      return Err(ErrStructInportsArgNonStruct);
    }

    var structFields := resolvedNodeArg.value.fields;
    var inports: map<string, Port> := map[];
    var remaining := structFields.Keys;
    while remaining != {}
      invariant remaining <= structFields.Keys
      invariant inports == map f | f in structFields && f !in remaining :: Port(structFields[f], false, ZeroMeta)
      decreases remaining
    {
      var fieldName :| fieldName in remaining;
      inports := inports[fieldName := Port(structFields[fieldName], false, ZeroMeta)];
      remaining := remaining - {fieldName};
    }
    assert inports == StructInportsOf(structFields);
    return Ok(StructInportsInterface(iface, resolvedNodeArg.value, inports));
  }

  /** An interface node keeps its interface unless it carries the bind directive or
      dependencies; a component without the struct-inports directive keeps its
      component's interface unless a bind or extern-overloading guard rejects it. */
  lemma DeclaredInterfaceKept(a: Analyzer, entity: Entity, hasBind: bool, node: Node, scope: Scope)
    ensures entity.kind == InterfaceEntity ==>
              (ResolvedNodeInterface(a, entity, hasBind, node, scope).Ok? <==> !hasBind && !node.hasDeps)
    ensures entity.kind == InterfaceEntity && ResolvedNodeInterface(a, entity, hasBind, node, scope).Ok? ==>
              ResolvedNodeInterface(a, entity, hasBind, node, scope).value == entity.interface
    ensures entity.kind != InterfaceEntity && AutoportsDirective !in entity.component.directives ==>
              var directives := entity.component.directives;
              var externArgs := if ExternDirective in directives then directives[ExternDirective] else [];
              ResolvedNodeInterface(a, entity, hasBind, node, scope) ==
                (if hasBind && ExternDirective !in directives then Err(ErrNormNodeBind)
                 else if |externArgs| > 1 && |node.typeArgs| != 1 then Err(ErrExternOverloadingNodeArgs)
                 else Ok(entity.component.interface))
  {
  }

  /** The interface of a struct-inports node has one inport per field of its resolved struct
      type argument, typed by that field and never an array, and one outport "v" typed by
      the whole struct; its type parameters are the component's. */
  lemma StructInportsShape(a: Analyzer, entity: Entity, hasBind: bool, node: Node, scope: Scope)
    requires entity.kind != InterfaceEntity && AutoportsDirective in entity.component.directives
    requires ResolvedNodeInterface(a, entity, hasBind, node, scope).Ok?
    ensures |node.typeArgs| == 1 && a.resolver.resolveExpr(node.typeArgs[0], scope).Ok?
    ensures var arg := a.resolver.resolveExpr(node.typeArgs[0], scope).value;
            var iface := ResolvedNodeInterface(a, entity, hasBind, node, scope).value;
            arg.StructLit? &&
            iface.io.inports.Keys == arg.fields.Keys &&
            (forall f :: f in iface.io.inports ==> iface.io.inports[f].typeExpr == arg.fields[f] && !iface.io.inports[f].isArray) &&
            iface.io.outports.Keys == {"v"} && iface.io.outports["v"].typeExpr == arg &&
            iface.typeParams == entity.component.interface.typeParams
  {
  }

  /** The struct-inports directive is only accepted on a component with no declared inports
      whose single type parameter is constrained by a struct, instantiated with a single
      struct type argument. */
  lemma StructInportsRequirements(a: Analyzer, entity: Entity, hasBind: bool, node: Node, scope: Scope)
    requires entity.kind != InterfaceEntity && AutoportsDirective in entity.component.directives
    requires ResolvedNodeInterface(a, entity, hasBind, node, scope).Ok?
    ensures |entity.component.interface.io.inports| == 0
    ensures |entity.component.interface.typeParams| == 1
    ensures a.resolver.resolveExpr(entity.component.interface.typeParams[0].constr, scope).Ok?
    ensures a.resolver.resolveExpr(entity.component.interface.typeParams[0].constr, scope).value.StructLit?
  {
  }

  // ---------------------------------------------------------------------------
  // A node and its dependencies

  /** Everything analyzeComponentNode checks about a node itself: the entity exists and is a
      component or an interface, a bind directive has exactly one argument, the interface
      resolves, the node passes as many type arguments as the interface has parameters, and
      they resolve. Yields the interface and the resolved arguments. */
  function NodeHead(a: Analyzer, node: Node, scope: Scope): Result<(Interface, seq<Expr>), NodeError>
  {
    match scope.entity(node.entityRef)
    case Err(m) => Err(ErrScopeEntity(m))
    case Ok((entity, _)) =>
      if entity.kind != ComponentEntity && entity.kind != InterfaceEntity then Err(ErrNodeWrongEntity(entity.kind))
      else
        var usesBind := BindDirective in node.directives;
        if usesBind && |node.directives[BindDirective]| != 1 then Err(ErrBindDirectiveArgs)
        else match ResolvedNodeInterface(a, entity, usesBind, node, scope)
          case Err(e) => Err(e)
          case Ok(iface) =>
            if |node.typeArgs| < |iface.typeParams| then Err(ErrNodeTypeArgsMissing)
            else if |node.typeArgs| > |iface.typeParams| then Err(ErrNodeTypeArgsTooMuch)
            else match a.resolver.resolveFrame(node.typeArgs, iface.typeParams, scope)
              case Err(m) => Err(ErrResolve(m))
              case Ok((resolvedArgs, _)) => Ok((iface, resolvedArgs))
  }

  /** The node and, recursively, every dependency it declares pass `NodeHead`. */
  predicate NodeOk(a: Analyzer, node: Node, scope: Scope)
    decreases node
  {
    NodeHead(a, node, scope).Ok? &&
    (node.hasDeps ==> forall d :: d in node.deps ==> NodeOk(a, node.deps[d], scope))
  }

  /** The analysed node: same directives, entity and position, resolved type arguments, and
      its dependencies analysed in turn (a nil dependency map stays nil). */
  function ResolvedNode(a: Analyzer, node: Node, scope: Scope): Node
    requires NodeOk(a, node, scope)
    decreases node, 1
  {
    var deps := if !node.hasDeps then map[] else ResolvedDeps(a, node, scope);
    Node(node.directives, node.entityRef, NodeHead(a, node, scope).value.1, node.hasDeps, deps, node.meta)
  }

  /** The dependencies of a node, each analysed. */
  function ResolvedDeps(a: Analyzer, node: Node, scope: Scope): map<string, Node>
    requires forall d :: d in node.deps ==> NodeOk(a, node.deps[d], scope)
    decreases node, 0
  {
    map d | d in node.deps :: ResolvedNode(a, node.deps[d], scope)
  }

  /** `e` is the error of the node itself or, if the node passes, of one of its
      dependencies, at any depth. */
  predicate IsNodeError(a: Analyzer, node: Node, scope: Scope, e: NodeError)
    decreases node
  {
    match NodeHead(a, node, scope)
    case Err(headErr) => e == headErr
    case Ok(_) => node.hasDeps && exists d :: d in node.deps && IsNodeError(a, node.deps[d], scope, e)
  }

  /** The checks analyzeComponentNode makes on the node itself, in the source's order: on
      success the entity is a component or an interface, a bind directive has one argument,
      the interface is the node's resolved interface, the node passes exactly as many type
      arguments as it has parameters, and the resolved arguments are the frame's. */
  method AnalyzeNodeHead(a: Analyzer, node: Node, scope: Scope) returns (r: Result<(Interface, seq<Expr>), NodeError>)
    ensures scope.entity(node.entityRef).Err? ==> r == Err(ErrScopeEntity(scope.entity(node.entityRef).error))
    ensures scope.entity(node.entityRef).Ok? && scope.entity(node.entityRef).value.0.kind !in {ComponentEntity, InterfaceEntity} ==>
              r == Err(ErrNodeWrongEntity(scope.entity(node.entityRef).value.0.kind))
    ensures r.Ok? ==> scope.entity(node.entityRef).Ok? &&
                      var entity := scope.entity(node.entityRef).value.0;
                      entity.kind in {ComponentEntity, InterfaceEntity} &&
                      (BindDirective in node.directives ==> |node.directives[BindDirective]| == 1) &&
                      ResolvedNodeInterface(a, entity, BindDirective in node.directives, node, scope) == Ok(r.value.0) &&
                      |node.typeArgs| == |r.value.0.typeParams| &&
                      a.resolver.resolveFrame(node.typeArgs, r.value.0.typeParams, scope).Ok? &&
                      a.resolver.resolveFrame(node.typeArgs, r.value.0.typeParams, scope).value.0 == r.value.1
    ensures r == NodeHead(a, node, scope)
  {
    var found := scope.entity(node.entityRef);
    if found.Err? {
      return Err(ErrScopeEntity(found.error));
    }
    var entity := found.value.0;
    if entity.kind != ComponentEntity && entity.kind != InterfaceEntity {
      return Err(ErrNodeWrongEntity(entity.kind));
    }
    var usesBindDirective := BindDirective in node.directives;
    if usesBindDirective && |node.directives[BindDirective]| != 1 {
      return Err(ErrBindDirectiveArgs);
    }
    var iface := GetResolvedNodeInterface(a, entity, usesBindDirective, node, scope);
    if iface.Err? {
      return Err(iface.error);
    }
    if |node.typeArgs| != |iface.value.typeParams| {
      if |node.typeArgs| < |iface.value.typeParams| {
        return Err(ErrNodeTypeArgsMissing);
      }
      return Err(ErrNodeTypeArgsTooMuch);
    }
    var frame := a.resolver.resolveFrame(node.typeArgs, iface.value.typeParams, scope);
    if frame.Err? {
      return Err(ErrResolve(frame.error));
    }
    return Ok((iface.value, frame.value.0));
  }

  /** analyzeComponentNode. Dependencies are visited in an unspecified order, as Go's map
      iteration is, so which failing dependency is reported is not fixed. */
  method AnalyzeComponentNode(a: Analyzer, node: Node, scope: Scope) returns (r: Result<(Node, Interface), NodeError>)
    ensures r.Ok? <==> NodeOk(a, node, scope)
    ensures r.Ok? ==> r.value == (ResolvedNode(a, node, scope), NodeHead(a, node, scope).value.0)
    ensures r.Err? ==> IsNodeError(a, node, scope, r.error)
    decreases node, 1
  {
    var head := AnalyzeNodeHead(a, node, scope);
    if head.Err? {
      return Err(head.error);
    }
    var (iface, resolvedArgs) := head.value;

    if !node.hasDeps {
      return Ok((Node(node.directives, node.entityRef, resolvedArgs, false, map[], node.meta), iface));
    }

    var resolvedComponentDI := AnalyzeDeps(a, node, scope);
    if resolvedComponentDI.Err? {
      return Err(resolvedComponentDI.error);
    }
    return Ok((Node(node.directives, node.entityRef, resolvedArgs, true, resolvedComponentDI.value, node.meta), iface));
  }

  lemma SameEntries<K, V>(m: map<K, V>, n: map<K, V>)
    requires m.Keys == n.Keys && forall k :: k in m ==> m[k] == n[k]
    ensures m == n
  {
  }

  /** The dependency loop of analyzeComponentNode: each dependency is analysed in turn (in
      unspecified order) and the first failure is returned. */
  method AnalyzeDeps(a: Analyzer, node: Node, scope: Scope) returns (r: Result<map<string, Node>, NodeError>)
    ensures r.Ok? <==> forall d :: d in node.deps ==> NodeOk(a, node.deps[d], scope)
    ensures r.Ok? ==> r.value == ResolvedDeps(a, node, scope)
    ensures r.Err? ==> exists d :: d in node.deps && IsNodeError(a, node.deps[d], scope, r.error)
    decreases node, 0
  {
    var deps := node.deps;
    var resolvedComponentDI: map<string, Node> := map[];
    var remaining := deps.Keys;
    while remaining != {}
      invariant remaining <= deps.Keys
      invariant forall d :: d in deps && d !in remaining ==> NodeOk(a, deps[d], scope)
      invariant resolvedComponentDI.Keys == deps.Keys - remaining
      invariant forall d :: d in resolvedComponentDI ==> resolvedComponentDI[d] == ResolvedNode(a, deps[d], scope)
      decreases remaining
    {
      var depName :| depName in remaining;
      var depNode := deps[depName];
      var resolvedDep := AnalyzeComponentNode(a, depNode, scope);
      if resolvedDep.Err? {
        assert depName in node.deps && IsNodeError(a, node.deps[depName], scope, resolvedDep.error);
        return Err(resolvedDep.error);
      }
      resolvedComponentDI := resolvedComponentDI[depName := resolvedDep.value.0];
      remaining := remaining - {depName};
    }
    SameEntries(resolvedComponentDI, ResolvedDeps(a, node, scope));
    return Ok(resolvedComponentDI);
  }

  /** analyzeComponentNodes: every node is analysed; the first failure (in unspecified
      order) is returned, otherwise the analysed nodes and their interfaces under the same
      names. */
  method AnalyzeComponentNodes(a: Analyzer, nodes: map<string, Node>, scope: Scope) returns (r: Result<(map<string, Node>, map<string, Interface>), NodeError>)
    ensures r.Ok? <==> forall n :: n in nodes ==> NodeOk(a, nodes[n], scope)
    ensures r.Ok? ==> r.value.0.Keys == nodes.Keys && r.value.1.Keys == nodes.Keys
    ensures r.Ok? ==> forall n :: n in nodes ==>
              r.value.0[n] == ResolvedNode(a, nodes[n], scope) && r.value.1[n] == NodeHead(a, nodes[n], scope).value.0
    ensures r.Err? ==> exists n :: n in nodes && IsNodeError(a, nodes[n], scope, r.error)
  {
    var analyzedNodes: map<string, Node> := map[];
    var nodesInterfaces: map<string, Interface> := map[];
    var remaining := nodes.Keys;
    while remaining != {}
      invariant remaining <= nodes.Keys
      invariant analyzedNodes.Keys == nodes.Keys - remaining && nodesInterfaces.Keys == nodes.Keys - remaining
      invariant forall n :: n in nodes && n !in remaining ==>
                  NodeOk(a, nodes[n], scope) && analyzedNodes[n] == ResolvedNode(a, nodes[n], scope) &&
                  nodesInterfaces[n] == NodeHead(a, nodes[n], scope).value.0
      decreases remaining
    {
      var nodeName :| nodeName in remaining;
      var analyzed := AnalyzeComponentNode(a, nodes[nodeName], scope);
      if analyzed.Err? {
        return Err(analyzed.error);
      }
      nodesInterfaces := nodesInterfaces[nodeName := analyzed.value.1];
      analyzedNodes := analyzedNodes[nodeName := analyzed.value.0];
      remaining := remaining - {nodeName};
    }
    return Ok((analyzedNodes, nodesInterfaces));
  }

  // ---------------------------------------------------------------------------
  // Properties of a node's analysis

  /** A node that passes has exactly as many type arguments as its interface has type
      parameters; passing too few or too many is reported as such. */
  lemma TypeArgsArity(a: Analyzer, node: Node, scope: Scope)
    ensures NodeHead(a, node, scope).Ok? ==> |node.typeArgs| == |NodeHead(a, node, scope).value.0.typeParams|
    ensures NodeHead(a, node, scope) == Err(ErrNodeTypeArgsMissing) ==>
              scope.entity(node.entityRef).Ok? &&
              var entity := scope.entity(node.entityRef).value.0;
              var iface := ResolvedNodeInterface(a, entity, BindDirective in node.directives, node, scope);
              iface.Ok? && |node.typeArgs| < |iface.value.typeParams|
    ensures NodeHead(a, node, scope) == Err(ErrNodeTypeArgsTooMuch) ==>
              scope.entity(node.entityRef).Ok? &&
              var entity := scope.entity(node.entityRef).value.0;
              var iface := ResolvedNodeInterface(a, entity, BindDirective in node.directives, node, scope);
              iface.Ok? && |node.typeArgs| > |iface.value.typeParams|
  {
  }

  /** Only components and interfaces can be instantiated as nodes, and a bind directive takes
      exactly one argument; an entity of any other kind is rejected as such. */
  lemma NodeEntityKind(a: Analyzer, node: Node, scope: Scope)
    ensures NodeHead(a, node, scope).Ok? ==>
              (scope.entity(node.entityRef).Ok? &&
               scope.entity(node.entityRef).value.0.kind in {ComponentEntity, InterfaceEntity} &&
               (BindDirective in node.directives ==> |node.directives[BindDirective]| == 1))
    ensures scope.entity(node.entityRef).Ok? && scope.entity(node.entityRef).value.0.kind !in {ComponentEntity, InterfaceEntity} ==>
              NodeHead(a, node, scope) == Err(ErrNodeWrongEntity(scope.entity(node.entityRef).value.0.kind))
    ensures NodeHead(a, node, scope) == Err(ErrBindDirectiveArgs) <==>
              scope.entity(node.entityRef).Ok? && scope.entity(node.entityRef).value.0.kind in {ComponentEntity, InterfaceEntity} &&
              BindDirective in node.directives && |node.directives[BindDirective]| != 1
  {
  }

  /** Two nodes agree on everything analysis keeps: directives, entity, position, and the
      presence, names and shape of their dependencies. */
  predicate SameShape(n1: Node, n2: Node)
    decreases n1
  {
    n1.directives == n2.directives && n1.entityRef == n2.entityRef && n1.meta == n2.meta &&
    n1.hasDeps == n2.hasDeps &&
    (n1.hasDeps ==> n1.deps.Keys == n2.deps.Keys &&
                       forall d :: d in n1.deps ==> SameShape(n1.deps[d], n2.deps[d]))
  }

  /** Analysis changes only type arguments, at every depth. */
  lemma {:induction false} ResolvedNodeSameShape(a: Analyzer, node: Node, scope: Scope)
    requires NodeOk(a, node, scope)
    ensures SameShape(node, ResolvedNode(a, node, scope))
    decreases node
  {
    if node.hasDeps {
      var resolved := ResolvedDeps(a, node, scope);
      assert ResolvedNode(a, node, scope).deps == resolved;
      forall d | d in node.deps
        ensures SameShape(node.deps[d], resolved[d])
      {
        ResolvedNodeSameShape(a, node.deps[d], scope);
      }
    }
  }
}
