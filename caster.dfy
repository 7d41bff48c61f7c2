/** The decoder of internal/runtime/decoder/proto/caster.go: a program in its wire form
    (ports, connections, operators, constants, triggers and a start port, with 32-bit
    indices and buffer sizes) is cast to the runtime's program. Every port address keeps
    its path and port name and has its index narrowed to a `uint8`; lists keep their order
    and length; the two address-keyed tables keep the last value given for an address. */
module Caster {
  import opened Wrappers

  newtype uint8 = x: int | 0 <= x < 256
  newtype uint32 = x: int | 0 <= x < 0x1_0000_0000
  newtype int64 = x: int | -0x8000_0000_0000_0000 <= x < 0x8000_0000_0000_0000

  /** Go's `uint8(x)`: the low eight bits. */
  function Narrow(x: uint32): uint8
  {
    (x as int % 256) as uint8
  }

  // ---------------------------------------------------------------------------
  // The wire form

  datatype SdkAddr = SdkAddr(path: string, port: string, idx: uint32)

  /** The wire message types; `OtherType` stands for every type the caster does not
      recognise. */
  datatype SdkMsgType = BoolType | IntType | StrType | StructType | OtherType(code: int)

  datatype SdkMsg = SdkMsg(typ: SdkMsgType, boolVal: bool, intVal: int64, strVal: string, struct: map<string, SdkMsg>)

  datatype SdkPort = SdkPort(addr: SdkAddr, bufSize: uint32)

  datatype SdkReceiver = SdkReceiver(inPortAddr: SdkAddr, typ: uint32, structFieldPath: seq<string>)

  datatype SdkConnection = SdkConnection(senderOutPortAddr: SdkAddr, receiverConnectionPoints: seq<SdkReceiver>)

  datatype SdkRef = SdkRef(pkg: string, name: string)

  datatype SdkOperator = SdkOperator(ref: SdkRef, inPortAddrs: seq<SdkAddr>, outPortAddrs: seq<SdkAddr>)

  datatype SdkConstant = SdkConstant(outPortAddr: SdkAddr, msg: SdkMsg)

  datatype SdkTrigger = SdkTrigger(msg: SdkMsg, inPortAddr: SdkAddr, outPortAddr: SdkAddr)

  datatype SdkEffects = SdkEffects(operators: seq<SdkOperator>, constants: seq<SdkConstant>, triggers: seq<SdkTrigger>)

  datatype SdkProgram = SdkProgram(ports: seq<SdkPort>, connections: seq<SdkConnection>, effects: SdkEffects, startPort: SdkAddr)

  // ---------------------------------------------------------------------------
  // The runtime form

  /** A port address of the runtime. */
  datatype Ports = Ports(path: string, port: string, idx: uint8)

  /** The runtime message tags the caster produces; `ZeroTag` is the zero value. */
  datatype MsgTag = ZeroTag | BoolMsg | IntMsg | StrMsg

  datatype Msg = Msg(typ: MsgTag, boolVal: bool, intVal: int, strVal: string, dict: map<string, Msg>)

  /** The zero `Msg`. */
  const EmptyMsg := Msg(ZeroTag, false, 0, "", map[])

  datatype ConnectionSide = ConnectionSide(portAddr: Ports, action: uint32, traverseDictPathActionPayload: seq<string>)

  datatype Connection = Connection(senderSide: Ports, receiverSides: seq<ConnectionSide>)

  datatype FuncRef = FuncRef(className: string, name: string)

  datatype OpPortAddrs = OpPortAddrs(inAddrs: seq<Ports>, outAddrs: seq<Ports>)

  datatype OpRef = OpRef(funcRef: FuncRef, portAddrs: OpPortAddrs)

  datatype TriggerNode = TriggerNode(msg: Msg, inAddr: Ports, outAddr: Ports)

  datatype Effects = Effects(operator: seq<OpRef>, giver: map<Ports, Msg>, triggers: seq<TriggerNode>)

  datatype Program = Program(ports: map<Ports, uint8>, net: seq<Connection>, effects: Effects, startPortAddr: Ports)

  // ---------------------------------------------------------------------------
  // Addresses

  /** The address conversion every cast repeats. */
  function CastAddr(a: SdkAddr): (p: Ports)
    ensures p.path == a.path && p.port == a.port && p.idx as int == a.idx as int % 256
  {
    Ports(a.path, a.port, Narrow(a.idx))
  }

  /** Two wire addresses cast to the same runtime address exactly when they agree on path
      and port and their indices agree modulo 256: index 0 and index 256 collide. */
  lemma CastAddrCollides(a: SdkAddr, b: SdkAddr)
    ensures CastAddr(a) == CastAddr(b) <==> a.path == b.path && a.port == b.port && a.idx as int % 256 == b.idx as int % 256
    ensures CastAddr(SdkAddr("p", "x", 0)) == CastAddr(SdkAddr("p", "x", 256))
  {
    if CastAddr(a) == CastAddr(b) {
      assert Narrow(a.idx) == Narrow(b.idx);
    }
  }

  /** Below 256 the narrowing keeps the index. */
  lemma CastAddrKeepsSmallIdx(a: SdkAddr)
    requires a.idx < 256
    ensures CastAddr(a).idx as int == a.idx as int && CastAddr(a).path == a.path && CastAddr(a).port == a.port
  {
  }

  predicate CastsAddrs(out: seq<Ports>, addrs: seq<SdkAddr>)
  {
    |out| == |addrs| && forall j :: 0 <= j < |addrs| ==> out[j] == CastAddr(addrs[j])
  }

  /** One of castOperators' inner loops: an address list, in order. */
  method CastAddrList(addrs: seq<SdkAddr>) returns (out: seq<Ports>)
    ensures CastsAddrs(out, addrs)
  {
    out := [];
    for i := 0 to |addrs|
      invariant CastsAddrs(out, addrs[..i])
    {
      out := out + [CastAddr(addrs[i])];
    }
  }

  // ---------------------------------------------------------------------------
  // Messages

  /** castMsg, the specification: bool, int and str keep their payload under the matching
      tag; a struct keeps its keys with every value cast, under the tag `StrMsg`; any other
      type gives the zero message. */
  function MsgOf(m: SdkMsg): Msg
    decreases m
  {
    match m.typ
    case BoolType => Msg(BoolMsg, m.boolVal, 0, "", map[])
    case IntType => Msg(IntMsg, false, m.intVal as int, "", map[])
    case StrType => Msg(StrMsg, false, 0, m.strVal, map[])
    case StructType => Msg(StrMsg, false, 0, "", map k | k in m.struct :: MsgOf(m.struct[k]))
    case OtherType(_) => EmptyMsg
  }

  /** castMsg. The struct's entries are visited in an unspecified order, as Go's map
      iteration is; the result does not depend on it. */
  method CastMsg(m: SdkMsg) returns (r: Msg)
    ensures r == MsgOf(m)
    decreases m
  {
    r := EmptyMsg;
    match m.typ {
      case BoolType => r := Msg(BoolMsg, m.boolVal, 0, "", map[]);
      case IntType => r := Msg(IntMsg, false, m.intVal as int, "", map[]);
      case StrType => r := Msg(StrMsg, false, 0, m.strVal, map[]);
      case StructType =>
        var structMsg: map<string, Msg> := map[];
        var remaining := m.struct.Keys;
        while remaining != {}
          invariant remaining <= m.struct.Keys
          invariant structMsg.Keys == m.struct.Keys - remaining
          invariant forall k :: k in structMsg ==> structMsg[k] == MsgOf(m.struct[k])
          decreases remaining
        {
          var k :| k in remaining;
          var v := CastMsg(m.struct[k]);
          structMsg := structMsg[k := v];
          remaining := remaining - {k};
        }
        assert structMsg == map k | k in m.struct :: MsgOf(m.struct[k]);
        r := Msg(StrMsg, false, 0, "", structMsg);
      case OtherType(_) =>
    }
  }

  /** The scalar cases: the tag matches the wire type and the payload is copied; an
      unrecognised type gives the zero message. */
  lemma MsgOfScalars(m: SdkMsg)
    ensures m.typ == BoolType ==> MsgOf(m).typ == BoolMsg && MsgOf(m).boolVal == m.boolVal
    ensures m.typ == IntType ==> MsgOf(m).typ == IntMsg && MsgOf(m).intVal == m.intVal as int
    ensures m.typ == StrType ==> MsgOf(m).typ == StrMsg && MsgOf(m).strVal == m.strVal
    ensures m.typ.OtherType? ==> MsgOf(m) == EmptyMsg
  {
  }

  /** The struct case: the same keys, each value cast, but the tag is `StrMsg`, so a cast
      struct is tagged like a string. */
  lemma MsgOfStruct(m: SdkMsg)
    requires m.typ == StructType
    ensures MsgOf(m).typ == StrMsg && MsgOf(m).strVal == ""
    ensures MsgOf(m).dict.Keys == m.struct.Keys
    ensures forall k :: k in m.struct ==> MsgOf(m).dict[k] == MsgOf(m.struct[k])
  {
  }

  /** Only a struct, at any depth, yields a non-empty `dict`: every message the cast
      produces has dictionaries only under `StrMsg` tags. */
  predicate DictsUnderStrTag(r: Msg)
    decreases r
  {
    (r.dict != map[] ==> r.typ == StrMsg) && forall k :: k in r.dict ==> DictsUnderStrTag(r.dict[k])
  }

  lemma {:induction false} MsgOfDictsUnderStrTag(m: SdkMsg)
    ensures DictsUnderStrTag(MsgOf(m))
    decreases m
  {
    if m.typ == StructType {
      forall k | k in MsgOf(m).dict
        ensures DictsUnderStrTag(MsgOf(m).dict[k])
      {
        MsgOfDictsUnderStrTag(m.struct[k]);
      }
    }
  }

  // ---------------------------------------------------------------------------
  // Address-keyed tables

  /** The table a loop of `table[key(x)] = value(x)` over `xs` leaves. */
  function Table<X, V>(xs: seq<X>, key: X -> Ports, value: X -> V): map<Ports, V>
  {
    if xs == [] then map[] else Table(xs[..|xs| - 1], key, value)[key(xs[|xs| - 1]) := value(xs[|xs| - 1])]
  }

  /** The table's keys are exactly the keys of the list's elements. */
  lemma {:induction false} TableKeys<X, V>(xs: seq<X>, key: X -> Ports, value: X -> V)
    ensures forall k :: k in Table(xs, key, value) <==> exists i :: 0 <= i < |xs| && key(xs[i]) == k
  {
    if xs != [] {
      var init := xs[..|xs| - 1];
      TableKeys(init, key, value);
      forall k | k in Table(xs, key, value)
        ensures exists i :: 0 <= i < |xs| && key(xs[i]) == k
      {
        if k != key(xs[|xs| - 1]) {
          assert k in Table(init, key, value);
          var i :| 0 <= i < |init| && key(init[i]) == k;
          assert xs[i] == init[i];
        }
      }
      forall k | exists i :: 0 <= i < |xs| && key(xs[i]) == k
        ensures k in Table(xs, key, value)
      {
        var i :| 0 <= i < |xs| && key(xs[i]) == k;
        if i < |init| {
          assert init[i] == xs[i];
        }
      }
    }
  }

  /** A duplicate key keeps the last value: an element whose key no later element repeats
      determines the entry. */
  lemma {:induction false} TableLastWins<X, V>(xs: seq<X>, key: X -> Ports, value: X -> V, i: int)
    requires 0 <= i < |xs|
    requires forall j :: i < j < |xs| ==> key(xs[j]) != key(xs[i])
    ensures key(xs[i]) in Table(xs, key, value) && Table(xs, key, value)[key(xs[i])] == value(xs[i])
  {
    if i < |xs| - 1 {
      var init := xs[..|xs| - 1];
      assert init[i] == xs[i];
      forall j | i < j < |init|
        ensures key(init[j]) != key(init[i])
      {
        assert init[j] == xs[j];
      }
      TableLastWins(init, key, value, i);
    }
  }

  function PortKey(p: SdkPort): Ports { CastAddr(p.addr) }

  function PortBufSize(p: SdkPort): uint8 { Narrow(p.bufSize) }

  function ConstantKey(c: SdkConstant): Ports { CastAddr(c.outPortAddr) }

  function ConstantMsg(c: SdkConstant): Msg { MsgOf(c.msg) }

  /** castPorts: the buffer size of every port by its cast address, both narrowed to
      `uint8`. */
  method CastPorts(prog: SdkProgram) returns (ports: map<Ports, uint8>)
    ensures ports == Table(prog.ports, PortKey, PortBufSize)
  {
    ports := map[];
    for i := 0 to |prog.ports|
      invariant ports == Table(prog.ports[..i], PortKey, PortBufSize)
    {
      assert prog.ports[..i + 1][..i] == prog.ports[..i];
      ports := ports[CastAddr(prog.ports[i].addr) := Narrow(prog.ports[i].bufSize)];
    }
    assert prog.ports[..|prog.ports|] == prog.ports;
  }

  /** castConstants: the cast message of every constant by its cast address. */
  method CastConstants(prog: SdkProgram) returns (constants: map<Ports, Msg>)
    ensures constants == Table(prog.effects.constants, ConstantKey, ConstantMsg)
  {
    constants := map[];
    for i := 0 to |prog.effects.constants|
      invariant constants == Table(prog.effects.constants[..i], ConstantKey, ConstantMsg)
    {
      var constant := prog.effects.constants[i];
      var msg := CastMsg(constant.msg);
      assert prog.effects.constants[..i + 1][..i] == prog.effects.constants[..i];
      constants := constants[CastAddr(constant.outPortAddr) := msg];
    }
    assert prog.effects.constants[..|prog.effects.constants|] == prog.effects.constants;
  }

  // ---------------------------------------------------------------------------
  // Lists

  predicate CastsTrigger(t: TriggerNode, s: SdkTrigger)
  {
    t.msg == MsgOf(s.msg) && t.inAddr == CastAddr(s.inPortAddr) && t.outAddr == CastAddr(s.outPortAddr)
  }

  /** castTriggers: one trigger per wire trigger, in order, with its message and both
      addresses cast. */
  method CastTriggers(prog: SdkProgram) returns (triggers: seq<TriggerNode>)
    ensures |triggers| == |prog.effects.triggers|
    ensures forall i :: 0 <= i < |triggers| ==> CastsTrigger(triggers[i], prog.effects.triggers[i])
  {
    triggers := [];
    for i := 0 to |prog.effects.triggers|
      invariant |triggers| == i
      invariant forall j :: 0 <= j < i ==> CastsTrigger(triggers[j], prog.effects.triggers[j])
    {
      var sdkTrigger := prog.effects.triggers[i];
      var msg := CastMsg(sdkTrigger.msg);
      triggers := triggers + [TriggerNode(msg, CastAddr(sdkTrigger.inPortAddr), CastAddr(sdkTrigger.outPortAddr))];
    }
  }

  predicate CastsOperator(o: OpRef, s: SdkOperator)
  {
    o.funcRef == FuncRef(s.ref.pkg, s.ref.name) &&
    CastsAddrs(o.portAddrs.inAddrs, s.inPortAddrs) && CastsAddrs(o.portAddrs.outAddrs, s.outPortAddrs)
  }

  /** castOperators: one operator per wire operator, in order; the reference's package
      becomes the class, and both address lists keep their order and length. */
  method CastOperators(prog: SdkProgram) returns (operators: seq<OpRef>)
    ensures |operators| == |prog.effects.operators|
    ensures forall i :: 0 <= i < |operators| ==> CastsOperator(operators[i], prog.effects.operators[i])
  {
    operators := [];
    for i := 0 to |prog.effects.operators|
      invariant |operators| == i
      invariant forall j :: 0 <= j < i ==> CastsOperator(operators[j], prog.effects.operators[j])
    {
      var operator := prog.effects.operators[i];
      var inAddrs := CastAddrList(operator.inPortAddrs);
      var outAddrs := CastAddrList(operator.outPortAddrs);
      operators := operators + [OpRef(FuncRef(operator.ref.pkg, operator.ref.name), OpPortAddrs(inAddrs, outAddrs))];
    }
  }

  predicate CastsReceiver(side: ConnectionSide, r: SdkReceiver)
  {
    side.portAddr == CastAddr(r.inPortAddr) && side.action == r.typ && side.traverseDictPathActionPayload == r.structFieldPath
  }

  predicate CastsConnection(c: Connection, s: SdkConnection)
  {
    c.senderSide == CastAddr(s.senderOutPortAddr) &&
    |c.receiverSides| == |s.receiverConnectionPoints| &&
    forall j :: 0 <= j < |c.receiverSides| ==> CastsReceiver(c.receiverSides[j], s.receiverConnectionPoints[j])
  }

  /** castConnections: one connection per wire connection, in order; each keeps its
      receivers in order, with their action and struct-field path copied. */
  method CastConnections(prog: SdkProgram) returns (connections: seq<Connection>)
    ensures |connections| == |prog.connections|
    ensures forall i :: 0 <= i < |connections| ==> CastsConnection(connections[i], prog.connections[i])
  {
    connections := [];
    for i := 0 to |prog.connections|
      invariant |connections| == i
      invariant forall j :: 0 <= j < i ==> CastsConnection(connections[j], prog.connections[j])
    {
      var connection := prog.connections[i];
      var points := connection.receiverConnectionPoints;
      var receivers: seq<ConnectionSide> := [];
      for k := 0 to |points|
        invariant |receivers| == k
        invariant forall j :: 0 <= j < k ==> CastsReceiver(receivers[j], points[j])
      {
        var receiver := points[k];
        receivers := receivers + [ConnectionSide(CastAddr(receiver.inPortAddr), receiver.typ, receiver.structFieldPath)];
      }
      connections := connections + [Connection(CastAddr(connection.senderOutPortAddr), receivers)];
    }
  }

  // ---------------------------------------------------------------------------
  // The program

  /** Cast: every part cast as above, the start port's address cast the same way; the error
      is always nil. */
  method Cast(prog: SdkProgram) returns (p: Program, err: Option<string>)
    ensures err == None
    ensures p.ports == Table(prog.ports, PortKey, PortBufSize)
    ensures p.effects.giver == Table(prog.effects.constants, ConstantKey, ConstantMsg)
    ensures |p.net| == |prog.connections| && forall i :: 0 <= i < |p.net| ==> CastsConnection(p.net[i], prog.connections[i])
    ensures |p.effects.operator| == |prog.effects.operators| &&
            forall i :: 0 <= i < |p.effects.operator| ==> CastsOperator(p.effects.operator[i], prog.effects.operators[i])
    ensures |p.effects.triggers| == |prog.effects.triggers| &&
            forall i :: 0 <= i < |p.effects.triggers| ==> CastsTrigger(p.effects.triggers[i], prog.effects.triggers[i])
    ensures p.startPortAddr == CastAddr(prog.startPort)
  {
    var ports := CastPorts(prog);
    var connections := CastConnections(prog);
    var funcs := CastOperators(prog);
    var constants := CastConstants(prog);
    var triggers := CastTriggers(prog);
    p := Program(ports, connections, Effects(funcs, constants, triggers), CastAddr(prog.startPort));
    err := None;
  }
}
