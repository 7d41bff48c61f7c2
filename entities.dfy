/** The entity pass of internal/compiler/analyze/entities.go: every entity of a package is
    analysed by kind, and the entities the package uses are collected: its exported
    entities, its root component, and whatever the analysis of each entity reports. The
    lookup of local entities and the analysis of types, messages, interfaces and components
    are collaborators over an abstract scope `S`; the payloads `T`, `M`, `I`, `C` are
    theirs, `None` standing for Go's zero value. */
module Entities {
  import opened Wrappers

  datatype Kind = TypeEntity | MsgEntity | InterfaceEntity | ComponentEntity | OtherKind(code: int)

  datatype Entity<T, M, I, C> = Entity(kind: Kind, exported: bool, typeDef: Option<T>, msg: Option<M>, iface: Option<I>, component: Option<C>)

  datatype EntityRef = EntityRef(pkg: string, name: string)

  datatype Pkg<T, M, I, C> = Pkg(entities: map<string, Entity<T, M, I, C>>, rootComponent: string)

  datatype Hooks<!S, !T, !M, !I, !C> = Hooks(
    getLocalEntity: (string, S) -> Result<Entity<T, M, I, C>, string>,
    analyzeType: (string, S) -> Result<(T, set<EntityRef>), string>,
    analyzeMsg: (Option<M>, S) -> Result<(M, set<EntityRef>), string>,
    analyzeInterface: (Option<I>, S) -> Result<(I, set<EntityRef>), string>,
    analyzeComponent: (Option<C>, S) -> Result<(C, set<EntityRef>), string>)

  datatype EntityError =
    | ErrScopeGetLocalEntity(cause: string)
    | ErrType(cause: string)
    | ErrMsg(cause: string)
    | ErrInterface(cause: string)
    | ErrComponent(cause: string)
    | ErrUnknownEntityKind

  /** An entity and the analysis of its name failed with `cause`. */
  datatype EntitiesError = ErrEntity(entityName: string, cause: EntityError)

  /** analyzeEntity: the entity is fetched from the scope and analysed according to its
      kind; the result has only that kind's definition, the analysed one, and keeps the
      kind and the export flag. An entity of no known kind is an error. */
  function AnalyzeEntity<S, T, M, I, C>(h: Hooks<S, T, M, I, C>, name: string, scope: S): (r: Result<(Entity<T, M, I, C>, set<EntityRef>), EntityError>)
    ensures h.getLocalEntity(name, scope).Err? ==> r == Err(ErrScopeGetLocalEntity(h.getLocalEntity(name, scope).error))
    ensures h.getLocalEntity(name, scope).Ok? && h.getLocalEntity(name, scope).value.kind.OtherKind? ==> r == Err(ErrUnknownEntityKind)
    ensures r.Ok? ==> h.getLocalEntity(name, scope).Ok? &&
                      r.value.0.kind == h.getLocalEntity(name, scope).value.kind && !r.value.0.kind.OtherKind? &&
                      r.value.0.exported == h.getLocalEntity(name, scope).value.exported
    ensures r.Ok? ==> (r.value.0.typeDef.Some? <==> r.value.0.kind == TypeEntity) && (r.value.0.msg.Some? <==> r.value.0.kind == MsgEntity) &&
                      (r.value.0.iface.Some? <==> r.value.0.kind == InterfaceEntity) && (r.value.0.component.Some? <==> r.value.0.kind == ComponentEntity)
  {
    match h.getLocalEntity(name, scope)
    case Err(e) => Err(ErrScopeGetLocalEntity(e))
    case Ok(entity) =>
      match entity.kind
      case TypeEntity =>
        (match h.analyzeType(name, scope)
         case Err(e) => Err(ErrType(e))
         case Ok((def, used)) => Ok((Entity(TypeEntity, entity.exported, Some(def), None, None, None), used)))
      case MsgEntity =>
        (match h.analyzeMsg(entity.msg, scope)
         case Err(e) => Err(ErrMsg(e))
         case Ok((msg, used)) => Ok((Entity(MsgEntity, entity.exported, None, Some(msg), None, None), used)))
      case InterfaceEntity =>
        (match h.analyzeInterface(entity.iface, scope)
         case Err(e) => Err(ErrInterface(e))
         case Ok((iface, used)) => Ok((Entity(InterfaceEntity, entity.exported, None, None, Some(iface), None), used)))
      case ComponentEntity =>
        (match h.analyzeComponent(entity.component, scope)
         case Err(e) => Err(ErrComponent(e))
         case Ok((comp, used)) => Ok((Entity(ComponentEntity, entity.exported, None, None, None, Some(comp)), used)))
      case OtherKind(_) => Err(ErrUnknownEntityKind)
  }

  /** The entity a package uses by itself being there: an exported entity or the root
      component, referred to by name alone. */
  predicate UsedByPkg<T, M, I, C>(pkg: Pkg<T, M, I, C>, ref: EntityRef)
  {
    ref.pkg == "" && ref.name in pkg.entities && (pkg.entities[ref.name].exported || ref.name == pkg.rootComponent)
  }

  /** `ref` is reported as used by the analysis of some entity of the package. */
  predicate UsedByEntity<S, T, M, I, C>(h: Hooks<S, T, M, I, C>, pkg: Pkg<T, M, I, C>, scope: S, ref: EntityRef)
  {
    exists name :: name in pkg.entities && AnalyzeEntity(h, name, scope).Ok? && ref in AnalyzeEntity(h, name, scope).value.1
  }

  /** analyzeEntities. Entities are visited in an unspecified order, as Go's map iteration
      is, and the first failure is returned with the entity's name. On success every entity
      is analysed under its name, and the used set is exactly what the package uses by
      itself plus what the entities' analyses report. */
  method AnalyzeEntities<S, T, M, I, C>(h: Hooks<S, T, M, I, C>, pkg: Pkg<T, M, I, C>, scope: S)
    returns (r: Result<(map<string, Entity<T, M, I, C>>, set<EntityRef>), EntitiesError>)
    ensures r.Ok? <==> forall name :: name in pkg.entities ==> AnalyzeEntity(h, name, scope).Ok?
    ensures r.Ok? ==> r.value.0.Keys == pkg.entities.Keys &&
                      forall name :: name in pkg.entities ==> r.value.0[name] == AnalyzeEntity(h, name, scope).value.0
    ensures r.Ok? ==> forall ref :: ref in r.value.1 <==> UsedByPkg(pkg, ref) || UsedByEntity(h, pkg, scope, ref)
    ensures r.Err? ==> r.error.entityName in pkg.entities && AnalyzeEntity(h, r.error.entityName, scope) == Err(r.error.cause)
  {
    var resolvedPkgEntities: map<string, Entity<T, M, I, C>> := map[];
    var allUsedEntities: set<EntityRef> := {};
    var remaining := pkg.entities.Keys;
    while remaining != {}
      invariant remaining <= pkg.entities.Keys
      invariant resolvedPkgEntities.Keys == pkg.entities.Keys - remaining
      invariant forall name :: name in resolvedPkgEntities ==>
                  AnalyzeEntity(h, name, scope).Ok? && resolvedPkgEntities[name] == AnalyzeEntity(h, name, scope).value.0
      invariant forall ref :: ref in allUsedEntities <==>
                  (UsedByPkg(pkg, ref) && ref.name !in remaining) ||
                  exists name :: name in resolvedPkgEntities && ref in AnalyzeEntity(h, name, scope).value.1
      decreases remaining
    {
      var entityName :| entityName in remaining;
      var entity := pkg.entities[entityName];
      if entity.exported || entityName == pkg.rootComponent {
        allUsedEntities := allUsedEntities + {EntityRef("", entityName)};
      }
      var analyzed := AnalyzeEntity(h, entityName, scope);
      if analyzed.Err? {
        return Err(ErrEntity(entityName, analyzed.error));
      }
      var (resolvedEntity, entitiesUsedByEntity) := analyzed.value;
      allUsedEntities := allUsedEntities + entitiesUsedByEntity;
      resolvedPkgEntities := resolvedPkgEntities[entityName := resolvedEntity];
      remaining := remaining - {entityName};
    }
    return Ok((resolvedPkgEntities, allUsedEntities));
  }
}
