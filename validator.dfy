/** The module validator of internal/compiler/validator/validator.go: a module's own ports
    must be non-empty in both directions and of known types, so must every dependency's,
    and every worker must name a dependency. Maps are visited in an unspecified order, as
    Go's map iteration is, so which violation is reported is a choice among the actual
    violations. */
module Validator {
  import opened Wrappers

  datatype Type = UnknownType | KnownType(name: string)

  datatype PortType = PortType(typ: Type)

  datatype IO = IO(inports: map<string, PortType>, outports: map<string, PortType>)

  /** A module: its interface, the interfaces of its dependencies by name, and its workers,
      each naming the dependency it instantiates. */
  datatype Module = Module(io: IO, deps: map<string, IO>, workers: map<string, string>)
  {
    function Interface(): IO { io }
  }

  datatype ValidationError =
    | ErrPortsLenZero
    | ErrUnknownType(port: string)
    | ErrInvalidDep(dep: string, cause: ValidationError)
    | ErrInvalidWorker(worker: string, dep: string)

  predicate KnownTypes(ports: map<string, PortType>)
  {
    forall port :: port in ports ==> ports[port].typ != UnknownType
  }

  predicate PortsValid(io: IO)
  {
    |io.inports| != 0 && |io.outports| != 0 && KnownTypes(io.inports) && KnownTypes(io.outports)
  }

  /** validatePorts: both directions need a port; then inports and then outports are
      checked for unknown types. */
  ghost function ValidatePorts(io: IO): (r: Outcome<ValidationError>)
    ensures r.Pass? <==> PortsValid(io)
    ensures (|io.inports| == 0 || |io.outports| == 0) ==> r == Fail(ErrPortsLenZero)
    ensures r.Fail? && r.error.ErrUnknownType? ==>
              (r.error.port in io.inports && io.inports[r.error.port].typ == UnknownType) ||
              (KnownTypes(io.inports) && r.error.port in io.outports && io.outports[r.error.port].typ == UnknownType)
    ensures r.Fail? ==> r.error.ErrPortsLenZero? || r.error.ErrUnknownType?
  {
    if |io.inports| == 0 || |io.outports| == 0 then Fail(ErrPortsLenZero)
    else if !KnownTypes(io.inports) then
      var port :| port in io.inports && io.inports[port].typ == UnknownType;
      Fail(ErrUnknownType(port))
    else if !KnownTypes(io.outports) then
      var port :| port in io.outports && io.outports[port].typ == UnknownType;
      Fail(ErrUnknownType(port))
    else Pass
  }

  predicate DepsValid(deps: map<string, IO>)
  {
    forall name :: name in deps ==> PortsValid(deps[name])
  }

  /** validateDeps: every dependency's ports are valid; a failure names the dependency and
      carries its port error. */
  ghost function ValidateDeps(deps: map<string, IO>): (r: Outcome<ValidationError>)
    ensures r.Pass? <==> DepsValid(deps)
    ensures r.Fail? ==> r.error.ErrInvalidDep? && r.error.dep in deps && ValidatePorts(deps[r.error.dep]) == Fail(r.error.cause)
  {
    if DepsValid(deps) then Pass
    else
      var name :| name in deps && !PortsValid(deps[name]);
      Fail(ErrInvalidDep(name, ValidatePorts(deps[name]).error))
  }

  predicate WorkersValid(deps: map<string, IO>, workers: map<string, string>)
  {
    forall worker :: worker in workers ==> workers[worker] in deps
  }

  /** validateWorkers: every worker points to an existing dependency. */
  ghost function ValidateWorkers(deps: map<string, IO>, workers: map<string, string>): (r: Outcome<ValidationError>)
    ensures r.Pass? <==> WorkersValid(deps, workers)
    ensures r.Fail? ==> r.error.ErrInvalidWorker? && r.error.worker in workers &&
                        workers[r.error.worker] == r.error.dep && r.error.dep !in deps
  {
    if WorkersValid(deps, workers) then Pass
    else
      var worker :| worker in workers && workers[worker] !in deps;
      Fail(ErrInvalidWorker(worker, workers[worker]))
  }

  /** Validate: the module's ports, then its dependencies, then its workers. */
  ghost function Validate(mod: Module): Outcome<ValidationError>
  {
    match ValidatePorts(mod.Interface())
    case Fail(e) => Fail(e)
    case Pass =>
      match ValidateDeps(mod.deps)
      case Fail(e) => Fail(e)
      case Pass => ValidateWorkers(mod.deps, mod.workers)
  }

  /** A module is valid exactly when its ports, every dependency's ports and every worker
      are. */
  lemma ValidateExact(mod: Module)
    ensures Validate(mod).Pass? <==> PortsValid(mod.io) && DepsValid(mod.deps) && WorkersValid(mod.deps, mod.workers)
  {
  }

  /** The checks run in order: a module with bad ports fails on its ports whatever its
      dependencies and workers, and bad dependencies are reported before bad workers. */
  lemma ValidateOrder(mod: Module)
    ensures !PortsValid(mod.io) ==> Validate(mod) == ValidatePorts(mod.io)
    ensures PortsValid(mod.io) && !DepsValid(mod.deps) ==> Validate(mod).Fail? && Validate(mod).error.ErrInvalidDep?
    ensures PortsValid(mod.io) && DepsValid(mod.deps) && !WorkersValid(mod.deps, mod.workers) ==>
              Validate(mod).Fail? && Validate(mod).error.ErrInvalidWorker?
  {
  }

  /** Adding a valid dependency keeps a valid module valid. */
  lemma AddValidDep(mod: Module, name: string, dep: IO)
    requires Validate(mod).Pass? && PortsValid(dep)
    ensures Validate(Module(mod.io, mod.deps[name := dep], mod.workers)).Pass?
  {
    var mod' := Module(mod.io, mod.deps[name := dep], mod.workers);
    ValidateExact(mod);
    ValidateExact(mod');
    assert forall w :: w in mod.workers ==> mod.workers[w] in mod'.deps;
  }
}
