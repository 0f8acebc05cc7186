// Delivery of queued packets over the radio: the device layer keeps the packet in hand until
// it is acknowledged, and a sending state machine moves by one state per call.
module XferSpec {
  import opened Wrappers
  import opened MemqSpec

  // ToJson is never entered.
  datatype SendState = ReadMem | ToJson | ServerSend | WaitAck | SendSuccess | Failed

  // ptr: the pointer to the packet being sent is not null
  datatype Xfer = Xfer(isReady: bool, sendState: SendState, ptr: bool, tryCount: nat, maxTry: nat)

  // held: a packet in the read buffer is not acknowledged yet; air: the last packet given to
  // the radio
  datatype Device = Device(held: bool, buf: Packet, air: Packet)

  datatype Node = Node(memq: State, dev: Device, xfer: Xfer)

  function Word(b: Packet): nat
    requires |b| >= 8
  {
    b[4] as nat + 0x100 * (b[5] as nat) + 0x1_0000 * (b[6] as nat) + 0x100_0000 * (b[7] as nat)
  }

  // Not from the future, and of the sensor or the log type. The time is taken from the place
  // where a sensor packet has it, whatever the type.
  predicate Good(b: Packet, now: nat)
    requires |b| >= 8
  {
    Word(b) <= now && (b[0] == 11 || b[0] == 23)
  }

  // A packet that is not good is dropped: it has left the queue and is not kept.
  function DeviceMemRead(c: Config, s: State, d: Device, now: nat): (r: (State, Device))
    requires Shape(c, s) && c.packetLen >= 8
    ensures Shape(c, r.0)
  {
    if d.held then (s, d)
    else
      var (s1, pkt) := ReadStep(c, s);
      (s1, TakeIn(d, pkt, now))
  }

  function TakeIn(d: Device, pkt: Option<Packet>, now: nat): Device
    requires pkt.Some? ==> |pkt.value| >= 8
  {
    if pkt.Some? then d.(held := Good(pkt.value, now), buf := pkt.value) else d
  }

  function DeviceRfSend(d: Device): Device {
    d.(air := d.buf)
  }

  function DeviceRfAckWait(d: Device, ack: bool): (Device, int) {
    if ack then (d.(held := false), 200) else (d, -1)
  }

  function XferRead(x: Xfer, found: bool): Xfer {
    if found then x.(ptr := true, sendState := ServerSend, tryCount := 0)
    else x.(ptr := false, isReady := false)
  }

  function XferReady(x: Xfer): Xfer {
    x.(isReady := true, sendState := ReadMem)
  }

  // One call of the loop: the radio's answer and the clock are what the call would see.
  function XferSendLoop(c: Config, n: Node, ack: bool, now: nat): (r: Node)
    requires Shape(c, n.memq) && c.packetLen >= 8
    ensures Shape(c, r.memq)
  {
    var x := n.xfer;
    if !x.isReady then n
    else
      match x.sendState
      case ReadMem =>
        var (s1, d1) := DeviceMemRead(c, n.memq, n.dev, now);
        Node(s1, d1, XferRead(x, d1.held))
      case ServerSend =>
        n.(dev := DeviceRfSend(n.dev), xfer := x.(tryCount := (x.tryCount + 1) % 256, sendState := WaitAck))
      case WaitAck =>
        var (d1, code) := DeviceRfAckWait(n.dev, ack);
        n.(dev := d1, xfer := x.(sendState := if code == 200 then SendSuccess else Failed))
      case SendSuccess => n.(xfer := XferReady(x))
      case Failed =>
        n.(xfer := if x.tryCount < x.maxTry then x.(sendState := ServerSend) else x.(isReady := false))
      case ToJson => n.(xfer := x.(sendState := ReadMem))
  }

  // ---------------------------------------------------------------- runs and what is seen of them

  datatype NodeOp = Sample(pkt: Packet) | Persist | Ready | Loop(ack: bool, now: nat)

  predicate NodeOpOk(c: Config, op: NodeOp) {
    op.Sample? ==> |op.pkt| == c.packetLen
  }

  function NodeStep(c: Config, n: Node, op: NodeOp): (r: Node)
    requires Shape(c, n.memq) && c.packetLen >= 8 && NodeOpOk(c, op)
    ensures Shape(c, r.memq)
  {
    match op
    case Sample(pkt) => n.(memq := WriteStep(c, n.memq, pkt))
    case Persist => n.(memq := MemqSpec.SaveStep(c, n.memq))
    case Ready => n.(xfer := XferReady(n.xfer))
    case Loop(ack, now) => XferSendLoop(c, n, ack, now)
  }

  // a packet that the queue gave out, and the time then
  datatype Take = Take(pkt: Packet, now: nat)

  // the transmissions after one visit of ReadMem, and how many packets were acknowledged then
  datatype Burst = Burst(at: nat, packets: seq<Packet>)

  datatype Trace = Trace(taken: seq<Take>, bursts: seq<Burst>, acked: seq<Packet>)

  function AddSend(bursts: seq<Burst>, pkt: Packet): seq<Burst> {
    if bursts == [] then [Burst(0, [pkt])]
    else
      var last := bursts[|bursts| - 1];
      bursts[|bursts| - 1 := last.(packets := last.packets + [pkt])]
  }

  function SeeRead(tr: Trace, pkt: Option<Packet>, now: nat): Trace {
    Trace(if pkt.Some? then tr.taken + [Take(pkt.value, now)] else tr.taken,
          tr.bursts + [Burst(|tr.acked|, [])], tr.acked)
  }

  function Observe(c: Config, n: Node, op: NodeOp, tr: Trace): Trace
    requires Shape(c, n.memq) && NodeOpOk(c, op)
  {
    if !op.Loop? || !n.xfer.isReady then tr
    else
      match n.xfer.sendState
      case ReadMem =>
        SeeRead(tr, if n.dev.held then None else ReadStep(c, n.memq).1, op.now)
      case ServerSend => tr.(bursts := AddSend(tr.bursts, n.dev.buf))
      case WaitAck => if op.ack then tr.(acked := tr.acked + [n.dev.air]) else tr
      case _ => tr
  }

  predicate NodeOpsOk(c: Config, ops: seq<NodeOp>) {
    forall i :: 0 <= i < |ops| ==> NodeOpOk(c, ops[i])
  }

  function NodeAfter(c: Config, n: Node, ops: seq<NodeOp>): (r: Node)
    requires Shape(c, n.memq) && c.packetLen >= 8 && NodeOpsOk(c, ops)
    ensures Shape(c, r.memq)
    decreases |ops|
  {
    if ops == [] then n else NodeAfter(c, NodeStep(c, n, ops[0]), ops[1..])
  }

  function TraceAfter(c: Config, n: Node, ops: seq<NodeOp>, tr: Trace): Trace
    requires Shape(c, n.memq) && c.packetLen >= 8 && NodeOpsOk(c, ops)
    decreases |ops|
  {
    if ops == [] then tr
    else TraceAfter(c, NodeStep(c, n, ops[0]), ops[1..], Observe(c, n, ops[0], tr))
  }

  // What memqWrite accepted during the run.
  function Accepted(c: Config, n: Node, ops: seq<NodeOp>): seq<Packet>
    requires Shape(c, n.memq) && c.packetLen >= 8 && NodeOpsOk(c, ops)
    decreases |ops|
  {
    if ops == [] then []
    else AcceptedNow(n, ops[0]) + Accepted(c, NodeStep(c, n, ops[0]), ops[1..])
  }

  function AcceptedNow(n: Node, op: NodeOp): seq<Packet> {
    if op.Sample? && !n.memq.ptr.isLock then [op.pkt] else []
  }

  // Power-up: xferBegin, nothing in hand, one try configured unless told otherwise.
  function Start(s: State, maxTry: nat): Node {
    Node(s, Device(false, [], []), Xfer(false, ReadMem, false, 0, maxTry))
  }
}
