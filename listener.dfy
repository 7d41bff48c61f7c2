/** The parse-tree listener of internal/compiler/parser/listener.go: entering each top-level
    statement of a source file updates the file's import table (alias to path) and entity
    table (name to entity) in place. The parse contexts are given with their sub-trees
    already parsed; the helpers that parse type parameters, type expressions, constant
    values, interfaces, nodes and networks are not part of this model, and their results are
    carried as text. */
module Listener {
  import opened Wrappers

  datatype Position = Position(line: int, column: int)

  datatype Meta = Meta(text: string, start: Position, stop: Position)

  /** What a parse helper produced for a sub-tree. */
  datatype Parsed = Parsed(text: string)

  datatype TypeDef = TypeDef(params: seq<Parsed>, bodyExpr: Parsed, meta: Meta)

  datatype ConstValue = ConstValue(value: Parsed, typeExpr: Parsed)

  datatype Const = Const(value: ConstValue, meta: Meta)

  /** A component: its interface, and with a body also its nodes and network. */
  datatype Component = Component(iface: Parsed, nodes: Option<Parsed>, net: Option<Parsed>)

  datatype EntityKind = TypeEntity | ConstEntity | InterfaceEntity | ComponentEntity

  /** An entity; the definitions other than its kind's are Go's zero values, `None` here. */
  datatype Entity = Entity(
    exported: bool,
    kind: EntityKind,
    typeDef: Option<TypeDef>,
    constDef: Option<Const>,
    iface: Option<Parsed>,
    component: Option<Component>)

  datatype File = File(imports: map<string, string>, entities: map<string, Entity>)

  // ---------------------------------------------------------------------------
  // Parse contexts

  datatype ImportDefContext = ImportDefContext(importPath: string, identifier: Option<string>)

  datatype TypeDefContext = TypeDefContext(pub: bool, identifier: string, typeParams: seq<Parsed>, typeExpr: Parsed, meta: Meta)

  datatype ConstDefContext = ConstDefContext(pub: bool, identifier: string, typeExpr: Parsed, constVal: Parsed, meta: Meta)

  datatype InterfaceDefContext = InterfaceDefContext(pub: bool, identifier: string, parsed: Parsed)

  datatype CompBodyContext = CompBodyContext(nodes: Parsed, net: Parsed)

  datatype CompDefContext = CompDefContext(interfaceDef: InterfaceDefContext, compBody: Option<CompBodyContext>)

  // ---------------------------------------------------------------------------
  // strings.Split and the import alias

  /** strings.Split(s, sep) for a one-character separator. */
  function Split(s: string, sep: char): (parts: seq<string>)
    ensures |parts| >= 1
  {
    if s == [] then [[]]
    else if s[0] == sep then [[]] + Split(s[1..], sep)
    else var rest := Split(s[1..], sep); [[s[0]] + rest[0]] + rest[1..]
  }

  /** strings.Join, the partner of Split. */
  function Join(parts: seq<string>, sep: char): string
  {
    if parts == [] then [] else if |parts| == 1 then parts[0] else parts[0] + [sep] + Join(parts[1..], sep)
  }

  /** Splitting loses nothing, and no part contains the separator. */
  lemma {:induction false} SplitJoin(s: string, sep: char)
    ensures Join(Split(s, sep), sep) == s
    ensures forall i :: 0 <= i < |Split(s, sep)| ==> sep !in Split(s, sep)[i]
  {
    if s != [] {
      SplitJoin(s[1..], sep);
      var rest := Split(s[1..], sep);
      if s[0] == sep {
        assert Split(s, sep)[1..] == rest;
      } else {
        var parts := Split(s, sep);
        assert parts[1..] == rest[1..];
        if |rest| > 1 {
          assert rest == [rest[0]] + rest[1..];
          assert Join(rest, sep) == rest[0] + [sep] + Join(rest[1..], sep);
        }
        forall i | 0 <= i < |parts|
          ensures sep !in parts[i]
        {
          if i > 0 {
            assert parts[i] == rest[i];
          }
        }
      }
    }
  }

  /** The alias of an import: the explicit identifier, or else the path's last `/`-separated
      segment. */
  function ImportAlias(ctx: ImportDefContext): string
  {
    match ctx.identifier
    case Some(id) => id
    case None => var ss := Split(ctx.importPath, '/'); ss[|ss| - 1]
  }

  /** Without an identifier the alias is the part of the path after its last `/`: a suffix
      without `/` that either is the whole path or follows a `/`. */
  lemma {:induction false} DefaultAliasIsLastSegment(path: string)
    ensures var alias := ImportAlias(ImportDefContext(path, None));
            '/' !in alias && |alias| <= |path| && path[|path| - |alias|..] == alias &&
            (|alias| == |path| || path[|path| - |alias| - 1] == '/')
  {
    var parts := Split(path, '/');
    SplitJoin(path, '/');
    assert '/' !in parts[|parts| - 1];
    LastPartOfJoin(path, parts);
  }

  lemma LastPartOfJoin(path: string, parts: seq<string>)
    requires |parts| >= 1 && Join(parts, '/') == path
    ensures var last := parts[|parts| - 1];
            |last| <= |path| && path[|path| - |last|..] == last && (|last| == |path| || path[|path| - |last| - 1] == '/')
  {
    LastPartIsSuffix(parts, '/');
  }

  lemma {:induction false} LastPartIsSuffix(parts: seq<string>, sep: char)
    requires |parts| >= 1
    ensures var s := Join(parts, sep); var last := parts[|parts| - 1];
            |last| <= |s| && s[|s| - |last|..] == last && (|last| == |s| || s[|s| - |last| - 1] == sep)
  {
    if |parts| > 1 {
      LastPartIsSuffix(parts[1..], sep);
      var j := Join(parts[1..], sep);
      var s := Join(parts, sep);
      assert s == (parts[0] + [sep]) + j;
      assert s[|s| - |j|..] == j;
    }
  }

  /** A path without `/` is its own alias. */
  lemma PlainPathIsAlias(path: string)
    requires '/' !in path
    ensures ImportAlias(ImportDefContext(path, None)) == path
  {
    DefaultAliasIsLastSegment(path);
  }

  // ---------------------------------------------------------------------------
  // Entities

  function TypeDefEntity(ctx: TypeDefContext): Entity
  {
    Entity(ctx.pub, TypeEntity, Some(TypeDef(ctx.typeParams, ctx.typeExpr, ctx.meta)), None, None, None)
  }

  function ConstDefEntity(ctx: ConstDefContext): Entity
  {
    Entity(ctx.pub, ConstEntity, None, Some(Const(ConstValue(ctx.constVal, ctx.typeExpr), ctx.meta)), None, None)
  }

  function InterfaceEntityOf(def: InterfaceDefContext): Entity
  {
    Entity(def.pub, InterfaceEntity, None, None, Some(def.parsed), None)
  }

  function CompDefEntity(ctx: CompDefContext): Entity
  {
    var iface := ctx.interfaceDef.parsed;
    var comp := match ctx.compBody
      case None => Component(iface, None, None)
      case Some(body) => Component(iface, Some(body.nodes), Some(body.net));
    Entity(ctx.interfaceDef.pub, ComponentEntity, None, None, None, Some(comp))
  }

  /** Every entity is exported exactly when its definition has the `pub` keyword, has its
      kind, and carries only its kind's definition; a component has nodes and a network
      exactly when it has a body. */
  lemma EntitiesByKind(t: TypeDefContext, c: ConstDefContext, i: InterfaceDefContext, comp: CompDefContext)
    ensures TypeDefEntity(t).exported == t.pub && TypeDefEntity(t).kind == TypeEntity && TypeDefEntity(t).typeDef.Some? &&
            TypeDefEntity(t).constDef.None? && TypeDefEntity(t).iface.None? && TypeDefEntity(t).component.None?
    ensures ConstDefEntity(c).exported == c.pub && ConstDefEntity(c).kind == ConstEntity && ConstDefEntity(c).constDef.Some? &&
            ConstDefEntity(c).typeDef.None? && ConstDefEntity(c).iface.None? && ConstDefEntity(c).component.None?
    ensures ConstDefEntity(c).constDef.value.value.typeExpr == c.typeExpr
    ensures InterfaceEntityOf(i).exported == i.pub && InterfaceEntityOf(i).kind == InterfaceEntity && InterfaceEntityOf(i).iface == Some(i.parsed)
    ensures CompDefEntity(comp).exported == comp.interfaceDef.pub && CompDefEntity(comp).kind == ComponentEntity &&
            CompDefEntity(comp).component.Some? && CompDefEntity(comp).component.value.iface == comp.interfaceDef.parsed
    ensures CompDefEntity(comp).component.value.nodes.Some? <==> comp.compBody.Some?
    ensures CompDefEntity(comp).component.value.net.Some? <==> comp.compBody.Some?
  {
  }

  /** The entity table after the interface definitions, in order. */
  function DefineInterfaces(entities: map<string, Entity>, defs: seq<InterfaceDefContext>): map<string, Entity>
  {
    if defs == [] then entities
    else DefineInterfaces(entities, defs[..|defs| - 1])[defs[|defs| - 1].identifier := InterfaceEntityOf(defs[|defs| - 1])]
  }

  /** A name no definition uses keeps its entity, or stays absent. */
  lemma {:induction false} DefineInterfacesKeepsOthers(entities: map<string, Entity>, defs: seq<InterfaceDefContext>, name: string)
    requires forall i :: 0 <= i < |defs| ==> defs[i].identifier != name
    ensures name in DefineInterfaces(entities, defs) <==> name in entities
    ensures name in entities ==> DefineInterfaces(entities, defs)[name] == entities[name]
  {
    if defs != [] {
      var init := defs[..|defs| - 1];
      assert forall i :: 0 <= i < |init| ==> init[i] == defs[i];
      DefineInterfacesKeepsOthers(entities, init, name);
    }
  }

  /** A defined name holds the last definition under it. */
  lemma {:induction false} DefineInterfacesLastWins(entities: map<string, Entity>, defs: seq<InterfaceDefContext>, i: int)
    requires 0 <= i < |defs|
    requires forall j :: i < j < |defs| ==> defs[j].identifier != defs[i].identifier
    ensures defs[i].identifier in DefineInterfaces(entities, defs)
    ensures DefineInterfaces(entities, defs)[defs[i].identifier] == InterfaceEntityOf(defs[i])
  {
    if i < |defs| - 1 {
      var init := defs[..|defs| - 1];
      assert init[i] == defs[i];
      forall j | i < j < |init|
        ensures init[j].identifier != init[i].identifier
      {
        assert init[j] == defs[j];
      }
      DefineInterfacesLastWins(entities, init, i);
    }
  }

  // ---------------------------------------------------------------------------
  // The listener

  class TreeShapeListener {
    var file: File

    constructor()
      ensures file == File(map[], map[])
    {
      file := File(map[], map[]);
    }

    /** EnterProg: both tables start empty. */
    method EnterProg()
      modifies this
      ensures file == File(map[], map[])
    {
      file := file.(entities := map[]);
      file := file.(imports := map[]);
    }

    /** EnterUseStmt: a fresh table replaces the imports only when they are empty, so
        imports from earlier use statements survive and the table is unchanged either way. */
    method EnterUseStmt(importDefs: seq<ImportDefContext>)
      modifies this
      ensures file == old(file)
    {
      if |file.imports| == 0 {
        file := file.(imports := map[]);
      }
    }

    /** EnterImportDef: the path is recorded under its alias, replacing an earlier import with
        the same alias. */
    method EnterImportDef(ctx: ImportDefContext)
      modifies this
      ensures file.imports == old(file.imports)[ImportAlias(ctx) := ctx.importPath]
      ensures file.entities == old(file.entities)
    {
      var path := ctx.importPath;
      var alias: string;
      if ctx.identifier.Some? {
        alias := ctx.identifier.value;
      } else {
        var ss := Split(path, '/');
        alias := ss[|ss| - 1];
      }
      file := file.(imports := file.imports[alias := path]);
    }

    /** EnterTypeDef: the type entity is stored under its name. */
    method EnterTypeDef(ctx: TypeDefContext)
      modifies this
      ensures file.entities == old(file.entities)[ctx.identifier := TypeDefEntity(ctx)]
      ensures file.imports == old(file.imports)
    {
      var result := Entity(ctx.pub, TypeEntity, Some(TypeDef(ctx.typeParams, ctx.typeExpr, ctx.meta)), None, None, None);
      file := file.(entities := file.entities[ctx.identifier := result]);
    }

    /** EnterConstDef: the constant, its value given the declared type expression, is stored
        under its name. */
    method EnterConstDef(ctx: ConstDefContext)
      modifies this
      ensures file.entities == old(file.entities)[ctx.identifier := ConstDefEntity(ctx)]
      ensures file.imports == old(file.imports)
    {
      var name := ctx.identifier;
      var parsedMsg := ConstValue(ctx.constVal, ctx.typeExpr);
      file := file.(entities := file.entities[name := Entity(ctx.pub, ConstEntity, None, Some(Const(parsedMsg, ctx.meta)), None, None)]);
    }

    /** EnterInterfaceStmt: every interface definition of the statement, in order. */
    method EnterInterfaceStmt(defs: seq<InterfaceDefContext>)
      modifies this
      ensures file.entities == DefineInterfaces(old(file.entities), defs)
      ensures file.imports == old(file.imports)
    {
      for i := 0 to |defs|
        invariant file.entities == DefineInterfaces(old(file.entities), defs[..i])
        invariant file.imports == old(file.imports)
      {
        assert defs[..i + 1][..i] == defs[..i];
        var interfaceDef := defs[i];
        file := file.(entities := file.entities[interfaceDef.identifier := InterfaceEntityOf(interfaceDef)]);
      }
      assert defs[..|defs|] == defs;
    }

    /** EnterCompDef: the component is stored under its interface's name, with nodes and
        network only when it has a body. */
    method EnterCompDef(ctx: CompDefContext)
      modifies this
      ensures file.entities == old(file.entities)[ctx.interfaceDef.identifier := CompDefEntity(ctx)]
      ensures file.imports == old(file.imports)
    {
      var name := ctx.interfaceDef.identifier;
      var parsedInterfaceDef := ctx.interfaceDef.parsed;
      var cmp: Entity;
      if ctx.compBody.None? {
        cmp := Entity(ctx.interfaceDef.pub, ComponentEntity, None, None, None, Some(Component(parsedInterfaceDef, None, None)));
        file := file.(entities := file.entities[name := cmp]);
      } else {
        var body := ctx.compBody.value;
        cmp := Entity(ctx.interfaceDef.pub, ComponentEntity, None, None, None,
                      Some(Component(parsedInterfaceDef, Some(body.nodes), Some(body.net))));
      }
      file := file.(entities := file.entities[name := cmp]);
    }
  }
}
