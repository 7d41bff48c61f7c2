/** The runtime's custom module of internal/core/module.go: a module with dependencies,
    ports, workers and a network from sender port points to sets of receiver port points;
    the counts of connections at an array port, with Go's `uint8` wrap-around; the two
    kinds of port point and their validating constructors. */
module CoreModule {
  import opened Wrappers

  newtype uint8 = x: int | 0 <= x < 256
  newtype uint64 = x: int | 0 <= x < 0x1_0000_0000_0000_0000

  /** Go's `x++` on a `uint8`: 255 wraps to 0. */
  function Inc(x: uint8): (y: uint8)
    ensures y as int == (x as int + 1) % 256
  {
    if x == 255 then 0 else x + 1
  }

  /** A normal port point names a node's port; an array port point also the slot index. */
  datatype PortPoint =
    | Norm(node: string, port: string)
    | Arr(node: string, port: string, idx: uint8)
  {
    function Node(): string { node }
    function Port(): string { port }
  }

  /** A port's type; only the number of ports matters here. */
  datatype PortType = PortType(name: string)

  datatype ModuleInterface = ModuleInterface(inports: map<string, PortType>, outports: map<string, PortType>)

  /** Sender port point to the set of its receivers. */
  type Net = map<PortPoint, set<PortPoint>>

  datatype CustomModule = CustomModule(
    deps: map<string, ModuleInterface>,
    inports: map<string, PortType>,
    outports: map<string, PortType>,
    workers: map<string, string>,
    net: Net)
  {
    /** Incoming is a stub answering 0 for every port. */
    function Incoming(p: PortPoint): (n: uint8)
      ensures n == 0
    {
      0
    }

    function Interface(): (i: ModuleInterface)
      ensures i.inports == inports && i.outports == outports
    {
      ModuleInterface(inports, outports)
    }

    /** Validate: a module needs at least one inport and one outport. */
    function Validate(): (r: Outcome<string>)
      ensures r.Pass? <==> |inports| != 0 && |outports| != 0
    {
      if |inports| == 0 || |outports| == 0 then Fail("ports len 0") else Pass
    }
  }

  /** Incoming ignores its argument. */
  lemma IncomingIgnoresPort(m: CustomModule, p: PortPoint, q: PortPoint)
    ensures m.Incoming(p) == m.Incoming(q)
  {
  }

  /** NewCustomModule: the module is built from its parts and returned only if it is valid. */
  function NewCustomModule(deps: map<string, ModuleInterface>, inports: map<string, PortType>, outports: map<string, PortType>, workers: map<string, string>, net: Net): (r: Result<CustomModule, string>)
    ensures r.Ok? <==> |inports| != 0 && |outports| != 0
    ensures r.Ok? ==> r.value.deps == deps && r.value.inports == inports && r.value.outports == outports &&
                      r.value.workers == workers && r.value.net == net && r.value.Validate().Pass?
  {
    var mod := CustomModule(deps, inports, outports, workers, net);
    match mod.Validate()
    case Fail(e) => Err(e)
    case Pass => Ok(mod)
  }

  // ---------------------------------------------------------------------------
  // Array port sizes

  predicate At(p: PortPoint, node: string, port: string)
  {
    p.Node() == node && p.Port() == port
  }

  /** Every connection (sender, receiver) of the network whose receiver is at the port. */
  ghost function ReceiversAt(net: Net, node: string, port: string): set<(PortPoint, PortPoint)>
  {
    set s, r | s in net && r in net[s] && At(r, node, port) :: (s, r)
  }

  /** Every sender of the network at the port. */
  ghost function SendersAt(net: Net, node: string, port: string): set<PortPoint>
  {
    set s | s in net && At(s, node, port)
  }

  /** The connections from the senders in `done` whose receiver is at the port. */
  ghost function ConnectionsFrom(net: Net, done: set<PortPoint>, node: string, port: string): set<(PortPoint, PortPoint)>
    requires done <= net.Keys
  {
    set s, r | s in done && r in net[s] && At(r, node, port) :: (s, r)
  }

  /** The connections from `sender` to the receivers in `seen` that are at the port. */
  ghost function RowFrom(sender: PortPoint, seen: set<PortPoint>, node: string, port: string): set<(PortPoint, PortPoint)>
  {
    set r | r in seen && At(r, node, port) :: (sender, r)
  }

  lemma RowStep(sender: PortPoint, seen: set<PortPoint>, r: PortPoint, node: string, port: string)
    ensures RowFrom(sender, seen + {r}, node, port) ==
            RowFrom(sender, seen, node, port) + (if At(r, node, port) then {(sender, r)} else {})
  {
  }

  lemma ConnectionsStep(net: Net, done: set<PortPoint>, sender: PortPoint, node: string, port: string)
    requires done <= net.Keys && sender in net
    ensures ConnectionsFrom(net, done + {sender}, node, port) ==
            ConnectionsFrom(net, done, node, port) + RowFrom(sender, net[sender], node, port)
  {
  }

  lemma CountOne<X>(counted: set<X>, x: X, size: uint8)
    requires x !in counted && size as int == |counted| % 256
    ensures Inc(size) as int == |counted + {x}| % 256
  {
  }

  /** One receiver of the inner loop: the count grows by one exactly when the receiver is
      at the port. */
  lemma RowCountStep(sender: PortPoint, rr: set<PortPoint>, seen: set<PortPoint>, r: PortPoint, node: string, port: string,
                     before: set<(PortPoint, PortPoint)>, size: uint8)
    requires r in rr && r !in seen && seen <= rr
    requires before !! RowFrom(sender, rr, node, port)
    requires size as int == |before + RowFrom(sender, seen, node, port)| % 256
    ensures (if At(r, node, port) then Inc(size) else size) as int == |before + RowFrom(sender, seen + {r}, node, port)| % 256
  {
    RowStep(sender, seen, r, node, port);
    if At(r, node, port) {
      assert (sender, r) in RowFrom(sender, rr, node, port);
      assert (sender, r) !in RowFrom(sender, seen, node, port);
      CountOne(before + RowFrom(sender, seen, node, port), (sender, r), size);
      assert before + RowFrom(sender, seen + {r}, node, port) == before + RowFrom(sender, seen, node, port) + {(sender, r)};
    }
  }

  /** The inner loop of ArrInSize: one sender's receivers at the port are added to the
      count. */
  method CountRow(sender: PortPoint, rr: set<PortPoint>, node: string, port: string, size0: uint8, ghost before: set<(PortPoint, PortPoint)>)
    returns (size: uint8)
    requires before !! RowFrom(sender, rr, node, port)
    requires size0 as int == |before| % 256
    ensures size as int == |before + RowFrom(sender, rr, node, port)| % 256
  {
    size := size0;
    ghost var seen: set<PortPoint> := {};
    assert before + RowFrom(sender, seen, node, port) == before;
    var receivers := rr;
    while receivers != {}
      invariant receivers <= rr && seen == rr - receivers
      invariant size as int == |before + RowFrom(sender, seen, node, port)| % 256
      decreases receivers
    {
      var receiver :| receiver in receivers;
      RowCountStep(sender, rr, seen, receiver, node, port, before, size);
      if receiver.Node() == node && receiver.Port() == port {
        size := Inc(size);
      }
      seen := seen + {receiver};
      receivers := receivers - {receiver};
    }
    assert seen == rr;
  }

  /** ArrInSize: the number of connections into the port, counted in a `uint8` that wraps. */
  method ArrInSize(net: Net, node: string, port: string) returns (size: uint8)
    ensures size as int == |ReceiversAt(net, node, port)| % 256
  {
    size := 0;
    ghost var done: set<PortPoint> := {};
    var senders := net.Keys;
    while senders != {}
      invariant senders <= net.Keys && done == net.Keys - senders
      invariant size as int == |ConnectionsFrom(net, done, node, port)| % 256
      decreases senders
    {
      var sender :| sender in senders;
      ConnectionsStep(net, done, sender, node, port);
      size := CountRow(sender, net[sender], node, port, size, ConnectionsFrom(net, done, node, port));
      done := done + {sender};
      senders := senders - {sender};
    }
    assert ConnectionsFrom(net, done, node, port) == ReceiversAt(net, node, port);
  }

  /** ArrOutSize: the number of senders at the port, counted in a `uint8` that wraps. */
  method ArrOutSize(net: Net, node: string, port: string) returns (size: uint8)
    ensures size as int == |SendersAt(net, node, port)| % 256
  {
    size := 0;
    ghost var counted: set<PortPoint> := {};
    var senders := net.Keys;
    while senders != {}
      invariant senders <= net.Keys
      invariant counted == set s | s in net && s !in senders && At(s, node, port)
      invariant size as int == |counted| % 256
      decreases senders
    {
      var sender :| sender in senders;
      if sender.Node() == node && sender.Port() == port {
        size := Inc(size);
        counted := counted + {sender};
      }
      senders := senders - {sender};
    }
    assert counted == SendersAt(net, node, port);
  }

  // ---------------------------------------------------------------------------
  // Port point constructors

  /** NewNormPortPoint: both names must be non-empty. */
  function NewNormPortPoint(node: string, port: string): (r: Result<PortPoint, string>)
    ensures r.Ok? <==> node != "" && port != ""
    ensures r.Ok? ==> r.value.Norm? && r.value.Node() == node && r.value.Port() == port
  {
    if node == "" || port == "" then Err("invalid normal port point") else Ok(Norm(node, port))
  }

  /** NewArrPortPoint: both names must be non-empty and the index must fit a `uint8`; the
      narrowing of the index therefore never truncates. */
  function NewArrPortPoint(node: string, port: string, idx: uint64): (r: Result<PortPoint, string>)
    ensures r.Ok? <==> node != "" && port != "" && idx <= 255
    ensures r.Ok? ==> r.value.Arr? && r.value.Node() == node && r.value.Port() == port && r.value.idx as int == idx as int
  {
    if node == "" || port == "" || idx > 255 then Err("invalid array port point")
    else Ok(Arr(node, port, (idx as int % 256) as uint8))
  }

  // ---------------------------------------------------------------------------
  // Compare

  /** Compare as written: both kinds compare the argument with itself (`norm.node ==
      got.Node()` where `norm` is `got`; `arr.idx == arr.Idx()`), so only the kind counts. */
  function CompareAsWritten(p: PortPoint, got: PortPoint): bool
  {
    match p
    case Norm(_, _) => (match got case Norm(_, _) => got.node == got.Node() && got.port == got.Port() case Arr(_, _, _) => false)
    case Arr(_, _, _) => (match got case Arr(_, _, i) => got.node == got.Node() && got.port == got.Port() && i == got.idx case Norm(_, _) => false)
  }

  /** As written, Compare holds exactly when both points are of the same kind: `a:x` equals
      `b:y`. */
  lemma CompareAsWrittenIgnoresFields(p: PortPoint, got: PortPoint)
    ensures CompareAsWritten(p, got) <==> p.Norm? == got.Norm?
    ensures CompareAsWritten(Norm("a", "x"), Norm("b", "y"))
    ensures CompareAsWritten(Arr("a", "x", 0), Arr("b", "y", 1))
  {
  }

  /** Compare as evidently intended: the receiver's node, port and (for array points)
      index against the argument's. */
  function Compare(p: PortPoint, got: PortPoint): (b: bool)
    ensures b <==> p == got
  {
    match p
    case Norm(node, port) => (match got case Norm(n, q) => node == n && port == q case Arr(_, _, _) => false)
    case Arr(node, port, idx) => (match got case Arr(n, q, i) => node == n && port == q && idx == i case Norm(_, _) => false)
  }

  /** Corrected, Compare is an equivalence. */
  lemma CompareIsEquivalence(p: PortPoint, q: PortPoint, s: PortPoint)
    ensures Compare(p, p)
    ensures Compare(p, q) == Compare(q, p)
    ensures Compare(p, q) && Compare(q, s) ==> Compare(p, s)
  {
  }
}
