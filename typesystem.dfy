/** The structural subtype checker of pkg/typesystem/subtype_checker.go.
    `Check(expr, constr, params)` decides whether the resolved type expression `expr`
    may be used where `constr` is expected. */
module Typesystem {
  import opened Wrappers

  /** An entity reference; the checker only compares references for equality. */
  type Ref = string

  /** A resolved type expression: an instantiation or one of the four literal kinds. */
  datatype Expr =
    | Inst(ref: Ref, args: seq<Expr>)
    | Arr(size: int, elem: Expr)
    | Enum(labels: seq<string>)
    | Rec(fields: map<string, Expr>)
    | Union(members: seq<Expr>)

  datatype LitType = EmptyLitType | ArrLitType | EnumLitType | RecLitType | UnionLitType

  /** `Lit.Type()`: an instantiation has no literal part. */
  function LitTypeOf(e: Expr): LitType {
    match e
    case Inst(_, _) => EmptyLitType
    case Arr(_, _) => ArrLitType
    case Enum(_) => EnumLitType
    case Rec(_) => RecLitType
    case Union(_) => UnionLitType
  }

  /** The named failure kinds of the checker (messages and wrapped causes are not modelled). */
  datatype CheckError =
    | ErrTerminator
    | ErrDiffKinds
    | ErrDiffRefs
    | ErrArgsCount
    | ErrArgNotSubtype
    | ErrLitArrSize
    | ErrArrDiffType
    | ErrBigEnum
    | ErrEnumEl
    | ErrRecLen
    | ErrRecField
    | ErrRecNoField
    | ErrUnion
    | ErrUnionsLen
    | ErrUnions
    | ErrDiffLitTypes

  /** A backward-linked chain of visited references; `prev` is `nil` at the root. */
  datatype Trace = Trace(prev: Option<Trace>, ref: Ref)

  /** The references of a trace, oldest first (the order `Trace.String` prints them in). */
  function Refs(t: Trace): (rs: seq<Ref>)
    ensures |rs| >= 1 && rs[|rs| - 1] == t.ref
    decreases t
  {
    match t.prev
    case None => [t.ref]
    case Some(p) => Refs(p) + [t.ref]
  }

  /** The scope the checker consults; only its top-type test is used here. */
  datatype Scope = Scope(isTopType: Expr -> bool)

  /** The recursion terminator: `ShouldTerminate(trace, scope)` may answer or fail. */
  datatype Terminator = Terminator(shouldTerminate: (Trace, Scope) -> Result<bool, string>)

  datatype TerminatorParams = TerminatorParams(scope: Scope, subtypeTrace: Trace, supertypeTrace: Trace)

  /** The traces used for the arguments of two instantiations: each trace grows by the
      reference of its own side, and the scope is kept. */
  function GetNewTerminatorParams(prev: TerminatorParams, subRef: Ref, supRef: Ref): (r: TerminatorParams)
    ensures Refs(r.subtypeTrace) == Refs(prev.subtypeTrace) + [subRef]
    ensures Refs(r.supertypeTrace) == Refs(prev.supertypeTrace) + [supRef]
    ensures r.subtypeTrace.prev == Some(prev.subtypeTrace) && r.supertypeTrace.prev == Some(prev.supertypeTrace)
    ensures r.scope == prev.scope
  {
    TerminatorParams(prev.scope, Trace(Some(prev.subtypeTrace), subRef), Trace(Some(prev.supertypeTrace), supRef))
  }

  datatype SubtypeChecker = SubtypeChecker(terminator: Terminator) {

    /** `expr <: constr`. Both sides must be resolved. Where the source walks a record's
        fields in Go map order, the field whose failure is reported is chosen with `:|`. */
    ghost function Check(expr: Expr, constr: Expr, params: TerminatorParams): Outcome<CheckError>
      decreases expr, constr
    {
      if params.scope.isTopType(constr) then Pass
      else
        var isConstrTypeInst := constr.Inst?;
        var diffKinds := expr.Inst? != isConstrTypeInst;
        if diffKinds && !constr.Union? then Fail(ErrDiffKinds)
        else if isConstrTypeInst then
          match terminator.shouldTerminate(params.subtypeTrace, params.scope)
          case Err(_) => Fail(ErrTerminator)
          case Ok(isSubTypeRecursive) =>
            match terminator.shouldTerminate(params.supertypeTrace, params.scope)
            case Err(_) => Fail(ErrTerminator)
            case Ok(isSuperTypeRecursive) =>
              if isSubTypeRecursive && isSuperTypeRecursive then Pass
              else if expr.ref != constr.ref then Fail(ErrDiffRefs)
              else if |expr.args| < |constr.args| then Fail(ErrArgsCount)
              else
                var newParams := GetNewTerminatorParams(params, expr.ref, constr.ref);
                if exists i :: 0 <= i < |constr.args| && Check(expr.args[i], constr.args[i], newParams).Fail?
                then Fail(ErrArgNotSubtype)
                else Pass
        else if !constr.Union? && LitTypeOf(expr) != LitTypeOf(constr) then Fail(ErrDiffLitTypes)
        else
          match constr
          case Arr(size, elem) =>
            if expr.size < size then Fail(ErrLitArrSize)
            else if Check(expr.elem, elem, params).Fail? then Fail(ErrArrDiffType)
            else Pass
          case Enum(labels) =>
            if |expr.labels| > |labels| then Fail(ErrBigEnum)
            else if exists i :: 0 <= i < |expr.labels| && expr.labels[i] != labels[i] then Fail(ErrEnumEl)
            else Pass
          case Rec(fields) =>
            if |expr.fields| < |fields| then Fail(ErrRecLen)
            else if exists name :: name in fields && (name !in expr.fields || Check(expr.fields[name], fields[name], params).Fail?) then
              var name :| name in fields && (name !in expr.fields || Check(expr.fields[name], fields[name], params).Fail?);
              if name !in expr.fields then Fail(ErrRecNoField) else Fail(ErrRecField)
            else Pass
          case Union(members) =>
            if !expr.Union? then
              if exists j :: 0 <= j < |members| && Check(expr, members[j], params).Pass? then Pass
              else Fail(ErrUnion)
            else if |expr.members| > |members| then Fail(ErrUnionsLen)
            else if exists i :: 0 <= i < |expr.members| && !Implements(expr.members[i], constr, params) then Fail(ErrUnions)
            else Pass
    }

    /** Some member of the constraint union accepts `el` (the `implements` flag). */
    ghost predicate Implements(el: Expr, union: Expr, params: TerminatorParams)
      requires union.Union?
      decreases el, union, 0
    {
      exists j :: 0 <= j < |union.members| && Check(el, union.members[j], params).Pass?
    }
  }

  /** `MustNewSubtypeChecker` panics (here: `None`) on a nil terminator. */
  function MustNewSubtypeChecker(terminator: Option<Terminator>): (r: Option<SubtypeChecker>)
    ensures r.Some? <==> terminator.Some?
    ensures r.Some? ==> r.value.terminator == terminator.value
  {
    match terminator
    case None => None
    case Some(t) => Some(SubtypeChecker(t))
  }

  // ---------------------------------------------------------------------------
  // Properties of Check, one decision rule at a time.

  lemma TopTypeAcceptsAll(c: SubtypeChecker, expr: Expr, constr: Expr, params: TerminatorParams)
    requires params.scope.isTopType(constr)
    ensures c.Check(expr, constr, params) == Pass
  {}

  /** An instantiation against a literal, or a literal against an instantiation, fails
      with ErrDiffKinds unless the constraint is a union literal. */
  lemma KindMismatch(c: SubtypeChecker, expr: Expr, constr: Expr, params: TerminatorParams)
    requires !params.scope.isTopType(constr)
    requires expr.Inst? != constr.Inst?
    ensures !constr.Union? <==> c.Check(expr, constr, params) == Fail(ErrDiffKinds)
  {}

  /** Two literals of different kinds fail with ErrDiffLitTypes unless the constraint is a union. */
  lemma LitKindMismatch(c: SubtypeChecker, expr: Expr, constr: Expr, params: TerminatorParams)
    requires !params.scope.isTopType(constr)
    requires !expr.Inst? && !constr.Inst? && !constr.Union?
    requires LitTypeOf(expr) != LitTypeOf(constr)
    ensures c.Check(expr, constr, params) == Fail(ErrDiffLitTypes)
  {}

  /** Either terminator failing makes an instantiation check fail with ErrTerminator. */
  lemma TerminatorFailure(c: SubtypeChecker, expr: Expr, constr: Expr, params: TerminatorParams)
    requires !params.scope.isTopType(constr)
    requires expr.Inst? && constr.Inst?
    requires c.terminator.shouldTerminate(params.subtypeTrace, params.scope).Err?
          || c.terminator.shouldTerminate(params.supertypeTrace, params.scope).Err?
    ensures c.Check(expr, constr, params) == Fail(ErrTerminator)
  {}

  /** Both traces recursive: success without looking at references or arguments. */
  lemma BothRecursiveSucceeds(c: SubtypeChecker, expr: Expr, constr: Expr, params: TerminatorParams)
    requires !params.scope.isTopType(constr)
    requires expr.Inst? && constr.Inst?
    requires c.terminator.shouldTerminate(params.subtypeTrace, params.scope) == Ok(true)
    requires c.terminator.shouldTerminate(params.supertypeTrace, params.scope) == Ok(true)
    ensures c.Check(expr, constr, params) == Pass
  {}

  /** Two instantiations that are not both recursive: equal references, at least as many
      candidate arguments, and every constraint argument covered by the candidate argument
      at the same position, checked under traces extended by the two references. */
  lemma InstRules(c: SubtypeChecker, expr: Expr, constr: Expr, params: TerminatorParams)
    requires !params.scope.isTopType(constr)
    requires expr.Inst? && constr.Inst?
    requires c.terminator.shouldTerminate(params.subtypeTrace, params.scope).Ok?
    requires c.terminator.shouldTerminate(params.supertypeTrace, params.scope).Ok?
    requires !(c.terminator.shouldTerminate(params.subtypeTrace, params.scope).value
               && c.terminator.shouldTerminate(params.supertypeTrace, params.scope).value)
    ensures expr.ref != constr.ref ==> c.Check(expr, constr, params) == Fail(ErrDiffRefs)
    ensures expr.ref == constr.ref && |expr.args| < |constr.args| ==> c.Check(expr, constr, params) == Fail(ErrArgsCount)
    ensures expr.ref == constr.ref && |expr.args| >= |constr.args| ==>
      var newParams := GetNewTerminatorParams(params, expr.ref, constr.ref);
      && (c.Check(expr, constr, params).Pass? <==>
            forall i :: 0 <= i < |constr.args| ==> c.Check(expr.args[i], constr.args[i], newParams).Pass?)
      && (c.Check(expr, constr, params).Fail? ==> c.Check(expr, constr, params) == Fail(ErrArgNotSubtype))
  {}

  /** Candidate arguments beyond the constraint's count are never looked at. */
  lemma ExtraArgsIgnored(c: SubtypeChecker, ref: Ref, args: seq<Expr>, extra: seq<Expr>, constrArgs: seq<Expr>, params: TerminatorParams)
    requires |args| >= |constrArgs|
    ensures c.Check(Inst(ref, args + extra), Inst(ref, constrArgs), params) == c.Check(Inst(ref, args), Inst(ref, constrArgs), params)
  {
    assert forall i :: 0 <= i < |constrArgs| ==> (args + extra)[i] == args[i];
  }

  lemma ArrayRule(c: SubtypeChecker, expr: Expr, constr: Expr, params: TerminatorParams)
    requires !params.scope.isTopType(constr)
    requires expr.Arr? && constr.Arr?
    ensures c.Check(expr, constr, params).Pass? <==> expr.size >= constr.size && c.Check(expr.elem, constr.elem, params).Pass?
    ensures expr.size < constr.size ==> c.Check(expr, constr, params) == Fail(ErrLitArrSize)
    ensures expr.size >= constr.size && c.Check(expr.elem, constr.elem, params).Fail? ==> c.Check(expr, constr, params) == Fail(ErrArrDiffType)
  {}

  /** An enum is accepted exactly when its labels are a prefix of the constraint's. */
  lemma EnumPrefix(c: SubtypeChecker, expr: Expr, constr: Expr, params: TerminatorParams)
    requires !params.scope.isTopType(constr)
    requires expr.Enum? && constr.Enum?
    ensures c.Check(expr, constr, params).Pass? <==> expr.labels <= constr.labels
    ensures |expr.labels| > |constr.labels| ==> c.Check(expr, constr, params) == Fail(ErrBigEnum)
    ensures |expr.labels| <= |constr.labels| && !(expr.labels <= constr.labels) ==> c.Check(expr, constr, params) == Fail(ErrEnumEl)
  {
    var a, b := expr.labels, constr.labels;
    if |a| <= |b| {
      if forall i :: 0 <= i < |a| ==> a[i] == b[i] {
        assert a == b[..|a|];
      } else {
        var i :| 0 <= i < |a| && a[i] != b[i];
        assert b[..|a|][i] != a[i];
      }
    }
  }

  lemma SubsetCardinality<T>(a: set<T>, b: set<T>)
    requires a <= b
    ensures |a| <= |b|
  {
    assert b == a + (b - a);
  }

  /** Width subtyping: every constraint field must be present in the candidate and be
      covered by the candidate's field; extra candidate fields are allowed. The length
      test of the source is implied by the presence of every field. */
  lemma RecordWidth(c: SubtypeChecker, expr: Expr, constr: Expr, params: TerminatorParams)
    requires !params.scope.isTopType(constr)
    requires expr.Rec? && constr.Rec?
    ensures c.Check(expr, constr, params).Pass? <==>
      && constr.fields.Keys <= expr.fields.Keys
      && forall name :: name in constr.fields ==> c.Check(expr.fields[name], constr.fields[name], params).Pass?
    ensures |expr.fields| < |constr.fields| ==> c.Check(expr, constr, params) == Fail(ErrRecLen)
    ensures c.Check(expr, constr, params) == Fail(ErrRecNoField) ==>
      exists name :: name in constr.fields && name !in expr.fields
    ensures c.Check(expr, constr, params) == Fail(ErrRecField) ==>
      exists name :: name in constr.fields && name in expr.fields && c.Check(expr.fields[name], constr.fields[name], params).Fail?
    ensures c.Check(expr, constr, params).Fail? ==>
      c.Check(expr, constr, params) in {Fail(ErrRecLen), Fail(ErrRecNoField), Fail(ErrRecField)}
  {
    if constr.fields.Keys <= expr.fields.Keys {
      SubsetCardinality(constr.fields.Keys, expr.fields.Keys);
    }
  }

  /** A non-union candidate against a union: accepted iff some member accepts it. */
  lemma UnionOfNonUnion(c: SubtypeChecker, expr: Expr, constr: Expr, params: TerminatorParams)
    requires !params.scope.isTopType(constr)
    requires constr.Union? && !expr.Union?
    ensures c.Check(expr, constr, params).Pass? <==>
      exists j :: 0 <= j < |constr.members| && c.Check(expr, constr.members[j], params).Pass?
    ensures c.Check(expr, constr, params).Fail? ==> c.Check(expr, constr, params) == Fail(ErrUnion)
  {}

  /** A union against a union: no more members, and each member accepted by some member. */
  lemma UnionOfUnion(c: SubtypeChecker, expr: Expr, constr: Expr, params: TerminatorParams)
    requires !params.scope.isTopType(constr)
    requires constr.Union? && expr.Union?
    ensures c.Check(expr, constr, params).Pass? <==>
      && |expr.members| <= |constr.members|
      && forall i :: 0 <= i < |expr.members| ==>
           exists j :: 0 <= j < |constr.members| && c.Check(expr.members[i], constr.members[j], params).Pass?
    ensures |expr.members| > |constr.members| ==> c.Check(expr, constr, params) == Fail(ErrUnionsLen)
    ensures |expr.members| <= |constr.members| && c.Check(expr, constr, params).Fail? ==>
      c.Check(expr, constr, params) == Fail(ErrUnions)
  {
    forall i | 0 <= i < |expr.members|
      ensures c.Implements(expr.members[i], constr, params) <==>
        exists j :: 0 <= j < |constr.members| && c.Check(expr.members[i], constr.members[j], params).Pass?
    {
    }
    if |expr.members| <= |constr.members| {
      assert c.Check(expr, constr, params).Pass? <==>
        forall i :: 0 <= i < |expr.members| ==> c.Implements(expr.members[i], constr, params);
      if c.Check(expr, constr, params).Pass? {
        forall i | 0 <= i < |expr.members|
          ensures exists j :: 0 <= j < |constr.members| && c.Check(expr.members[i], constr.members[j], params).Pass?
        {
          assert c.Implements(expr.members[i], constr, params);
        }
      }
    }
  }

  ghost predicate NeverFails(t: Terminator) {
    forall trace, scope :: t.shouldTerminate(trace, scope).Ok?
  }

  /** Reflexivity: with a terminator that always answers, every expression is a subtype of
      itself, whatever the traces. */
  lemma {:induction false} Reflexive(c: SubtypeChecker, e: Expr, params: TerminatorParams)
    requires NeverFails(c.terminator)
    ensures c.Check(e, e, params) == Pass
    decreases e
  {
    if params.scope.isTopType(e) {
      return;
    }
    match e
    case Inst(r, args) =>
      var newParams := GetNewTerminatorParams(params, r, r);
      forall i | 0 <= i < |args|
        ensures c.Check(args[i], args[i], newParams) == Pass
      {
        Reflexive(c, args[i], newParams);
      }
    case Arr(_, el) =>
      Reflexive(c, el, params);
    case Enum(_) =>
    case Rec(fields) =>
      forall name | name in fields
        ensures c.Check(fields[name], fields[name], params) == Pass
      {
        Reflexive(c, fields[name], params);
      }
    case Union(members) =>
      forall i | 0 <= i < |members|
        ensures c.Implements(members[i], e, params)
      {
        Reflexive(c, members[i], params);
      }
  }

  // ---------------------------------------------------------------------------
  // Worked cases: [5]int <: [3]int, {a int, b str} <: {a int}, int <: int | str.

  lemma ArraySizes(c: SubtypeChecker, params: TerminatorParams)
    requires NeverFails(c.terminator)
    requires !params.scope.isTopType(Arr(3, Inst("int", []))) && !params.scope.isTopType(Arr(5, Inst("int", [])))
    ensures c.Check(Arr(3, Inst("int", [])), Arr(5, Inst("int", [])), params) == Fail(ErrLitArrSize)
    ensures c.Check(Arr(5, Inst("int", [])), Arr(3, Inst("int", [])), params) == Pass
  {
    Reflexive(c, Inst("int", []), params);
  }

  lemma RecordFields(c: SubtypeChecker, params: TerminatorParams)
    requires NeverFails(c.terminator)
    requires !params.scope.isTopType(Rec(map["a" := Inst("int", [])]))
    requires !params.scope.isTopType(Rec(map["a" := Inst("int", []), "c" := Inst("bool", [])]))
    ensures c.Check(Rec(map["a" := Inst("int", []), "b" := Inst("str", [])]), Rec(map["a" := Inst("int", [])]), params) == Pass
    ensures c.Check(Rec(map["a" := Inst("int", []), "b" := Inst("str", [])]),
                    Rec(map["a" := Inst("int", []), "c" := Inst("bool", [])]), params) == Fail(ErrRecNoField)
  {
    Reflexive(c, Inst("int", []), params);
    var e := map["a" := Inst("int", []), "b" := Inst("str", [])];
    var k := map["a" := Inst("int", []), "c" := Inst("bool", [])];
    assert e.Keys == {"a", "b"} && k.Keys == {"a", "c"};
    assert e["a"] == Inst("int", []) && k["a"] == Inst("int", []);
    assert "c" in k && "c" !in e;
  }

  lemma UnionMembers(c: SubtypeChecker, params: TerminatorParams)
    requires NeverFails(c.terminator)
    requires !params.scope.isTopType(Union([Inst("int", []), Inst("str", [])]))
    requires !params.scope.isTopType(Union([Inst("int", [])]))
    ensures c.Check(Inst("int", []), Union([Inst("int", []), Inst("str", [])]), params) == Pass
    ensures c.Check(Union([Inst("int", []), Inst("str", [])]), Union([Inst("int", [])]), params) == Fail(ErrUnionsLen)
  {
    Reflexive(c, Inst("int", []), params);
    assert Union([Inst("int", []), Inst("str", [])]).members[0] == Inst("int", []);
  }
}
