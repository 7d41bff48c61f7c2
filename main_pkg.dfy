/** The checks internal/compiler/analyzer/main_pkg.go makes on the main package: it holds
    an entity `Main` that is an unexported component, the main component passes its own
    analysis, and no entity of the package is exported. A package maps file names to the
    entities each file declares; the main component's analysis is a collaborator. */
module MainPkg {
  import opened Wrappers

  datatype EntityKind = TypeEntity | ConstEntity | InterfaceEntity | ComponentEntity

  datatype Entity<C> = Entity(kind: EntityKind, exported: bool, component: C)

  /** File name to the entities declared in it, by name. */
  type Package<C> = map<string, map<string, Entity<C>>>

  datatype ScopeLocation = ScopeLocation(pkgName: string, fileName: string)

  datatype Scope<C> = Scope(loc: ScopeLocation, prog: map<string, Package<C>>)

  datatype MainError =
    | ErrMainEntityNotFound
    | ErrMainEntityIsNotComponent
    | ErrMainEntityExported
    | ErrAnalyzeMainComponent(cause: string)
    | ErrMainPkgExports(fileName: string, entityName: string)

  /** analyzeMainComponent, a collaborator. */
  type MainComponentAnalysis<!C> = (C, Package<C>, Scope<C>) -> Outcome<string>

  predicate DeclaresMain<C>(pkg: Package<C>, file: string)
  {
    file in pkg && "Main" in pkg[file]
  }

  /** The scope the main component is analysed in: package "main", the file declaring it. */
  function MainScope<C>(file: string, pkgs: map<string, Package<C>>): Scope<C>
  {
    Scope(ScopeLocation("main", file), pkgs)
  }

  /** `Main`, as declared in `file`, passes: an unexported component whose analysis succeeds. */
  predicate MainOkIn<C>(analyze: MainComponentAnalysis<C>, pkg: Package<C>, pkgs: map<string, Package<C>>, file: string)
    requires DeclaresMain(pkg, file)
  {
    var main := pkg[file]["Main"];
    main.kind == ComponentEntity && !main.exported && analyze(main.component, pkg, MainScope(file, pkgs)).Pass?
  }

  predicate NoExports<C>(pkg: Package<C>)
  {
    forall file, name :: file in pkg && name in pkg[file] ==> !pkg[file][name].exported
  }

  /** mainSpecificPkgValidation. `pkg.Entity("Main")` and `pkg.Entities` visit files and
      entities in an unspecified order, as Go's map iteration is: which file's `Main` is
      taken, and which exported entity is reported, is a choice. */
  ghost function MainSpecificPkgValidation<C>(analyze: MainComponentAnalysis<C>, pkg: Package<C>, pkgs: map<string, Package<C>>): (r: Outcome<MainError>)
    ensures r == Fail(ErrMainEntityNotFound) <==> forall file :: !DeclaresMain(pkg, file)
    ensures r.Pass? ==> NoExports(pkg) && exists file :: DeclaresMain(pkg, file) && MainOkIn(analyze, pkg, pkgs, file)
    ensures (exists file :: DeclaresMain(pkg, file)) && (forall file :: DeclaresMain(pkg, file) ==> MainOkIn(analyze, pkg, pkgs, file)) && NoExports(pkg) ==> r.Pass?
    ensures r == Fail(ErrMainEntityIsNotComponent) ==> exists file :: DeclaresMain(pkg, file) && pkg[file]["Main"].kind != ComponentEntity
    ensures r == Fail(ErrMainEntityExported) ==> exists file :: DeclaresMain(pkg, file) && pkg[file]["Main"].exported
    ensures r.Fail? && r.error.ErrAnalyzeMainComponent? ==>
              exists file :: DeclaresMain(pkg, file) && analyze(pkg[file]["Main"].component, pkg, MainScope(file, pkgs)) == Fail(r.error.cause)
    ensures r.Fail? && r.error.ErrMainPkgExports? ==>
              r.error.fileName in pkg && r.error.entityName in pkg[r.error.fileName] && pkg[r.error.fileName][r.error.entityName].exported
  {
    if forall file :: !DeclaresMain(pkg, file) then Fail(ErrMainEntityNotFound)
    else
      var filename :| DeclaresMain(pkg, filename);
      var entityMain := pkg[filename]["Main"];
      if entityMain.kind != ComponentEntity then Fail(ErrMainEntityIsNotComponent)
      else if entityMain.exported then Fail(ErrMainEntityExported)
      else match analyze(entityMain.component, pkg, MainScope(filename, pkgs))
        case Fail(cause) => Fail(ErrAnalyzeMainComponent(cause))
        case Pass =>
          if NoExports(pkg) then Pass
          else
            var fileName, entityName :| fileName in pkg && entityName in pkg[fileName] && pkg[fileName][entityName].exported;
            Fail(ErrMainPkgExports(fileName, entityName))
  }

  /** Exactly one file of the package declares `Main`. */
  predicate OnlyMainIn<C>(pkg: Package<C>, file: string)
  {
    DeclaresMain(pkg, file) && forall f :: f in pkg && "Main" in pkg[f] ==> f == file
  }

  /** With a single `Main` the outcome is fixed: its kind is checked first, then its export
      flag, then its analysis, and only then the exports of the whole package. */
  lemma MainChecksInOrder<C>(analyze: MainComponentAnalysis<C>, pkg: Package<C>, pkgs: map<string, Package<C>>, file: string)
    requires OnlyMainIn(pkg, file)
    ensures var main := pkg[file]["Main"];
            var r := MainSpecificPkgValidation(analyze, pkg, pkgs);
            (main.kind != ComponentEntity ==> r == Fail(ErrMainEntityIsNotComponent)) &&
            (main.kind == ComponentEntity && main.exported ==> r == Fail(ErrMainEntityExported)) &&
            (main.kind == ComponentEntity && !main.exported && analyze(main.component, pkg, MainScope(file, pkgs)).Fail? ==>
               r == Fail(ErrAnalyzeMainComponent(analyze(main.component, pkg, MainScope(file, pkgs)).error))) &&
            (main.kind == ComponentEntity && !main.exported && analyze(main.component, pkg, MainScope(file, pkgs)).Pass? ==>
               (r.Pass? <==> NoExports(pkg)) && (r.Fail? ==> r.error.ErrMainPkgExports?))
  {
  }
}
