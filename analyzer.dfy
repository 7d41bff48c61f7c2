/** The analyzer's entry point and small helpers of internal/compiler/analyzer/analyzer.go:
    a program needs a main package that is executable, and then every package is analysed;
    type parameters are validated and their constraints resolved; used-entity sets merge.
    The analysis of single packages, the parameter validator and the expression resolver
    are collaborators passed in as functions over an abstract scope `S` and package `P`. */
module ProgramAnalyzer {
  import opened Wrappers
  import Typesystem

  /** A type expression of pkg/types, `None` being Go's empty expression. */
  type TypeExpr = Option<Typesystem.Expr>

  datatype Param = Param(name: string, constr: TypeExpr)

  /** Go's zero `ts.Param`. */
  const ZeroParam := Param("", None)

  datatype EntityRef = EntityRef(pkg: string, name: string)

  /** The collaborators the analyzer calls: the parameter validator, the expression
      resolver, and the analysis of the main package and of a package by name. */
  datatype Hooks<!S, !P> = Hooks(
    validateParams: seq<Param> -> Outcome<string>,
    resolve: (Typesystem.Expr, S) -> Result<Typesystem.Expr, string>,
    analyzeMainPkg: (P, map<string, P>) -> Outcome<string>,
    analyzePkg: (string, map<string, P>) -> Result<P, string>)

  datatype AnalyzeError =
    | ErrMainPkgNotFound
    | ErrExecutablePkg(cause: string)
    | ErrPkg(pkgName: string, cause: string)
    | ErrValidator(cause: string)
    | ErrResolver(param: string, cause: string)

  // ---------------------------------------------------------------------------
  // Analyze

  /** Every package analyses successfully. */
  predicate AllPkgsOk<S, P>(h: Hooks<S, P>, prog: map<string, P>)
  {
    forall name :: name in prog ==> h.analyzePkg(name, prog).Ok?
  }

  /** Analyze: the program must have a package "main", which must pass the main-package
      checks; then every package is analysed (in unspecified order, as Go's map iteration
      is), the first failure aborting, and the result holds the analysed packages under the
      same names. */
  method Analyze<S, P>(h: Hooks<S, P>, prog: map<string, P>) returns (r: Result<map<string, P>, AnalyzeError>)
    ensures "main" !in prog ==> r == Err(ErrMainPkgNotFound)
    ensures "main" in prog && h.analyzeMainPkg(prog["main"], prog).Fail? ==>
              r == Err(ErrExecutablePkg(h.analyzeMainPkg(prog["main"], prog).error))
    ensures r.Ok? <==> "main" in prog && h.analyzeMainPkg(prog["main"], prog).Pass? && AllPkgsOk(h, prog)
    ensures r.Ok? ==> r.value.Keys == prog.Keys && forall name :: name in prog ==> r.value[name] == h.analyzePkg(name, prog).value
    ensures r.Err? && "main" in prog && h.analyzeMainPkg(prog["main"], prog).Pass? ==>
              r.error.ErrPkg? && r.error.pkgName in prog && h.analyzePkg(r.error.pkgName, prog) == Err(r.error.cause)
  {
    if "main" !in prog {
      return Err(ErrMainPkgNotFound);
    }
    var mainPkg := prog["main"];
    var mainErr := h.analyzeMainPkg(mainPkg, prog);
    if mainErr.Fail? {
      return Err(ErrExecutablePkg(mainErr.error));
    }

    var resolvedProg: map<string, P> := map[];
    var remaining := prog.Keys;
    while remaining != {}
      invariant remaining <= prog.Keys
      invariant resolvedProg.Keys == prog.Keys - remaining
      invariant forall name :: name in resolvedProg ==> h.analyzePkg(name, prog) == Ok(resolvedProg[name])
      decreases remaining
    {
      var pkgName :| pkgName in remaining;
      var resolvedPkg := h.analyzePkg(pkgName, prog);
      if resolvedPkg.Err? {
        return Err(ErrPkg(pkgName, resolvedPkg.error));
      }
      resolvedProg := resolvedProg[pkgName := resolvedPkg.value];
      remaining := remaining - {pkgName};
    }
    return Ok(resolvedProg);
  }

  // ---------------------------------------------------------------------------
  // Type parameters

  predicate ConstrResolves<S, P>(h: Hooks<S, P>, p: Param, scope: S)
  {
    p.constr.None? || h.resolve(p.constr.value, scope).Ok?
  }

  /** The parameter analyzeTypeParameters puts at a parameter's index, as written: a
      parameter with an empty constraint is skipped and its slot keeps Go's zero value. */
  function AnalyzedParam<S, P>(h: Hooks<S, P>, p: Param, scope: S): Param
    requires ConstrResolves(h, p, scope)
  {
    if p.constr.None? then ZeroParam else Param(p.name, Some(h.resolve(p.constr.value, scope).value))
  }

  /** The parameter as evidently intended: an empty constraint leaves the parameter as it is. */
  function AnalyzedParamIntended<S, P>(h: Hooks<S, P>, p: Param, scope: S): Param
    requires ConstrResolves(h, p, scope)
  {
    if p.constr.None? then p else Param(p.name, Some(h.resolve(p.constr.value, scope).value))
  }

  /** `i` is the first parameter whose constraint does not resolve. */
  predicate FirstUnresolved<S, P>(h: Hooks<S, P>, params: seq<Param>, scope: S, i: int)
  {
    0 <= i < |params| && !ConstrResolves(h, params[i], scope) &&
    forall j :: 0 <= j < i ==> ConstrResolves(h, params[j], scope)
  }

  /** analyzeTypeParameters, as written: the validator runs first; then constraints are
      resolved by index into a fresh slice, the first failure aborting with that parameter's
      name. */
  method AnalyzeTypeParameters<S, P>(h: Hooks<S, P>, params: seq<Param>, scope: S) returns (r: Result<seq<Param>, AnalyzeError>)
    ensures h.validateParams(params).Fail? ==> r == Err(ErrValidator(h.validateParams(params).error))
    ensures h.validateParams(params).Pass? ==>
              (r.Ok? <==> forall i :: 0 <= i < |params| ==> ConstrResolves(h, params[i], scope))
    ensures r.Ok? ==> |r.value| == |params| && forall i :: 0 <= i < |params| ==> r.value[i] == AnalyzedParam(h, params[i], scope)
    ensures r.Err? && h.validateParams(params).Pass? ==>
              exists i :: FirstUnresolved(h, params, scope, i) &&
                          r.error == ErrResolver(params[i].name, h.resolve(params[i].constr.value, scope).error)
  {
    var validation := h.validateParams(params);
    if validation.Fail? {
      return Err(ErrValidator(validation.error));
    }
    var resolvedParams := new Param[|params|](_ => ZeroParam);
    for i := 0 to |params|
      invariant forall j :: 0 <= j < i ==> ConstrResolves(h, params[j], scope) && resolvedParams[j] == AnalyzedParam(h, params[j], scope)
      invariant forall j :: i <= j < |params| ==> resolvedParams[j] == ZeroParam
    {
      var param := params[i];
      if param.constr.None? {
        continue;
      }
      var resolvedConstr := h.resolve(param.constr.value, scope);
      if resolvedConstr.Err? {
        assert FirstUnresolved(h, params, scope, i);
        return Err(ErrResolver(param.name, resolvedConstr.error));
      }
      resolvedParams[i] := Param(param.name, Some(resolvedConstr.value));
    }
    return Ok(resolvedParams[..]);
  }

  /** analyzeTypeParameters as evidently intended: every parameter keeps its name and its
      place, and only non-empty constraints are replaced by their resolution. */
  method AnalyzeTypeParametersIntended<S, P>(h: Hooks<S, P>, params: seq<Param>, scope: S) returns (r: Result<seq<Param>, AnalyzeError>)
    ensures h.validateParams(params).Fail? ==> r == Err(ErrValidator(h.validateParams(params).error))
    ensures h.validateParams(params).Pass? ==>
              (r.Ok? <==> forall i :: 0 <= i < |params| ==> ConstrResolves(h, params[i], scope))
    ensures r.Ok? ==> |r.value| == |params| && forall i :: 0 <= i < |params| ==> r.value[i] == AnalyzedParamIntended(h, params[i], scope)
    ensures r.Err? && h.validateParams(params).Pass? ==>
              exists i :: FirstUnresolved(h, params, scope, i) &&
                          r.error == ErrResolver(params[i].name, h.resolve(params[i].constr.value, scope).error)
  {
    var validation := h.validateParams(params);
    if validation.Fail? {
      return Err(ErrValidator(validation.error));
    }
    var resolvedParams := new Param[|params|](_ => ZeroParam);
    for i := 0 to |params|
      invariant forall j :: 0 <= j < i ==> ConstrResolves(h, params[j], scope) && resolvedParams[j] == AnalyzedParamIntended(h, params[j], scope)
    {
      var param := params[i];
      if param.constr.None? {
        resolvedParams[i] := param;
        continue;
      }
      var resolvedConstr := h.resolve(param.constr.value, scope);
      if resolvedConstr.Err? {
        assert FirstUnresolved(h, params, scope, i);
        return Err(ErrResolver(param.name, resolvedConstr.error));
      }
      resolvedParams[i] := Param(param.name, Some(resolvedConstr.value));
    }
    return Ok(resolvedParams[..]);
  }

  /** As written, a parameter without a constraint comes back nameless: `T` in `<T, U int>`
      is returned as the zero parameter. */
  lemma UnconstrainedParamLosesName<S, P>(h: Hooks<S, P>, scope: S)
    ensures AnalyzedParam(h, Param("T", None), scope).name == ""
    ensures AnalyzedParam(h, Param("T", None), scope) != Param("T", None)
  {
  }

  /** Corrected, analysis keeps every parameter's name, and keeps an empty constraint
      empty. */
  lemma {:induction false} IntendedParamsKeepNames<S, P>(h: Hooks<S, P>, params: seq<Param>, scope: S, i: int)
    requires 0 <= i < |params| && ConstrResolves(h, params[i], scope)
    ensures AnalyzedParamIntended(h, params[i], scope).name == params[i].name
    ensures AnalyzedParamIntended(h, params[i], scope).constr.None? <==> params[i].constr.None?
  {
  }

  // ---------------------------------------------------------------------------
  // IO, used-entity sets and construction

  datatype IO = IO(inports: map<string, Param>, outports: map<string, Param>)

  /** analyzeIO is a stub: it returns an empty IO, no used entities and no error whatever
      it is given. */
  function AnalyzeIO<S>(io: IO, scope: S, params: seq<Param>): (r: (IO, set<EntityRef>, Outcome<AnalyzeError>))
    ensures r.0.inports == map[] && r.0.outports == map[] && r.1 == {} && r.2.Pass?
  {
    (IO(map[], map[]), {}, Pass)
  }

  /** The stub ignores its input. */
  lemma AnalyzeIOIgnoresInput<S>(io1: IO, io2: IO, scope1: S, scope2: S, params1: seq<Param>, params2: seq<Param>)
    ensures AnalyzeIO(io1, scope1, params1) == AnalyzeIO(io2, scope2, params2)
  {
  }

  /** The union of a sequence of sets. */
  function UnionAll<T>(used: seq<set<T>>): set<T>
    decreases |used|
  {
    if used == [] then {} else UnionAll(used[..|used| - 1]) + used[|used| - 1]
  }

  /** An element is in the union exactly when it is in one of the sets. */
  lemma {:induction false} UnionAllMembership<T>(used: seq<set<T>>, x: T)
    ensures x in UnionAll(used) <==> exists i :: 0 <= i < |used| && x in used[i]
    decreases |used|
  {
    if used != [] {
      var init := used[..|used| - 1];
      UnionAllMembership(init, x);
      assert forall i :: 0 <= i < |init| ==> init[i] == used[i];
    }
  }

  /** mergeUsed: every key of every set is copied into a fresh result. */
  method MergeUsed<T>(used: seq<set<T>>) returns (result: set<T>)
    ensures result == UnionAll(used)
  {
    result := {};
    for i := 0 to |used|
      invariant result == UnionAll(used[..i])
    {
      assert used[..i + 1][..i] == used[..i];
      var u := used[i];
      var rest := u;
      while rest != {}
        invariant rest <= u
        invariant result == UnionAll(used[..i]) + (u - rest)
        decreases rest
      {
        var k :| k in rest;
        result := result + {k};
        rest := rest - {k};
      }
    }
    assert used[..|used|] == used;
  }

  /** The analyzer's fields; `native` stays nil in MustNew. */
  datatype Analyzer<R, C, V> = Analyzer(resolver: R, checker: C, validator: V, native: Option<set<EntityRef>>)

  /** MustNew panics (here: `None`) when any collaborator is nil, and otherwise stores them. */
  function MustNew<R, C, V>(r: Option<R>, c: Option<C>, v: Option<V>): (a: Option<Analyzer<R, C, V>>)
    ensures a.Some? <==> r.Some? && c.Some? && v.Some?
    ensures a.Some? ==> a.value.resolver == r.value && a.value.checker == c.value && a.value.validator == v.value && a.value.native.None?
  {
    if r.None? || c.None? || v.None? then None else Some(Analyzer(r.value, c.value, v.value, None))
  }
}
