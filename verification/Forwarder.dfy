/**
 The two threads of yak and the network cards, as a transition system.

 Every port owns one pool of mbufs and one ring. The tap thread moves frames
 from the host interface to the ring; the forwarding thread moves them from the
 ring to the card, and frames received by the card to the host interface. One
 step is one call a thread makes, or one action of a card; the steps interleave
 in any order.
*/
module Forwarder {
  import opened Bytes
  import opened Sequences

  type Id = nat
  type Frame = seq<Byte>

  const BURST_SIZE: nat := 32
  const ETHER_HEADER: nat := 14

  /** `pool` is the number of mbufs in each pool, `slots` the usable capacity of each ring. */
  datatype Config = Config(ports: nat, pool: nat, slots: nat)

  /** A frame handed to the card's transmit queue, and whether the card took it. */
  datatype Sent = Sent(frame: Frame, accepted: bool)

  /**
   Who owns which mbuf of the port, what the mbufs contain, and the history of
   the port: frames read from the tap, handed to the card, received by the card,
   handled by `port_input`, written to the tap; mbufs `port_input` has freed;
   forwarding visits begun.
  */
  datatype Port = Port(
    free: multiset<Id>,
    ring: seq<Id>,
    posted: multiset<Id>,
    received: seq<Id>,
    sending: multiset<Id>,
    store: map<Id, Frame>,
    tapIn: seq<Frame>,
    sent: seq<Sent>,
    wireIn: seq<Frame>,
    handled: seq<Frame>,
    tapOut: seq<Frame>,
    freed: nat,
    visits: nat)

  /** Where the tap thread stands in its loop; `m` is the mbuf in its hand. */
  datatype TapThread =
    | TapAtAlloc(pid: nat)
    | TapAtRead(pid: nat, m: Id)
    | TapAtEnqueue(pid: nat, m: Id)

  /** Where the forwarding thread stands; `i` is the current index of `mbufs` or `bufs`. */
  datatype FwdThread =
    | AtCheck(pid: nat)
    | AtDequeue(pid: nat)
    | AtTx(pid: nat, mbufs: seq<Id>, i: nat)
    | AtTxFree(pid: nat, mbufs: seq<Id>, i: nat)
    | AtRx(pid: nat)
    | AtInput(pid: nat, bufs: seq<Id>, i: nat)
    | AtInputFree(pid: nat, bufs: seq<Id>, i: nat)

  datatype State = State(ports: seq<Port>, tap: TapThread, fwd: FwdThread)

  datatype Step =
    | TapAlloc(m: Id)
    | TapRead(frame: Frame)
    | TapEnqueue
    | FwdCheck
    | FwdDequeue
    | FwdTx(accepted: bool)
    | FwdTxFree
    | FwdRx(count: nat)
    | FwdInput
    | FwdInputFree
    | NicPost(pid: nat, m: Id)
    | NicReceive(pid: nat, m: Id, frame: Frame)
    | NicSent(pid: nat, m: Id)

  // ---------------------------------------------------------------- contents

  function Content(store: map<Id, Frame>, m: Id): Frame {
    if m in store then store[m] else []
  }

  function Frames(store: map<Id, Frame>, ids: seq<Id>): (fs: seq<Frame>)
    ensures |fs| == |ids|
    ensures forall k :: 0 <= k < |ids| ==> fs[k] == Content(store, ids[k])
  {
    seq(|ids|, k requires 0 <= k < |ids| => Content(store, ids[k]))
  }

  function SentFrames(sent: seq<Sent>): (fs: seq<Frame>)
    ensures |fs| == |sent|
    ensures forall k :: 0 <= k < |sent| ==> fs[k] == sent[k].frame
  {
    seq(|sent|, k requires 0 <= k < |sent| => sent[k].frame)
  }

  function EtherType(frame: Frame): nat
    requires |frame| >= ETHER_HEADER
  {
    frame[12] as int * 256 + frame[13]
  }

  /** The frames `port_input` passes to the host: IPv6, IPv4, ARP and 802.1Q. */
  predicate ForHost(frame: Frame) {
    |frame| >= ETHER_HEADER && EtherType(frame) in {0x86dd, 0x0800, 0x0806, 0x8100}
  }

  /** The frames for the host, in their order. */
  function HostFrames(fs: seq<Frame>): (r: seq<Frame>) {
    if fs == [] then []
    else
      var last := fs[|fs| - 1];
      HostFrames(fs[..|fs| - 1]) + if ForHost(last) then [last] else []
  }

  // ------------------------------------------------------------- transitions

  function NextPid(c: Config, pid: nat): nat { if pid + 1 < c.ports then pid + 1 else 0 }

  function AfterTx(pid: nat, mbufs: seq<Id>, i: nat): FwdThread {
    if i < |mbufs| then AtTx(pid, mbufs, i) else AtRx(pid)
  }

  function AfterInput(c: Config, pid: nat, bufs: seq<Id>, i: nat): FwdThread {
    if i < |bufs| then AtInput(pid, bufs, i) else AtCheck(NextPid(c, pid))
  }

  predicate WellTyped(c: Config, s: State) {
    && |s.ports| == c.ports
    && s.tap.pid < c.ports
    && s.fwd.pid < c.ports
    && (s.fwd.AtTx? || s.fwd.AtTxFree? ==> s.fwd.i < |s.fwd.mbufs| <= BURST_SIZE)
    && (s.fwd.AtInput? || s.fwd.AtInputFree? ==> s.fwd.i < |s.fwd.bufs| <= BURST_SIZE)
  }

  /**
   When a step can be taken. An allocation returns an mbuf only while the pool has
   one, and a card delivers frames with a whole Ethernet header.
  */
  predicate Enabled(c: Config, s: State, step: Step)
    requires WellTyped(c, s)
  {
    match step
    case TapAlloc(m) => s.tap.TapAtAlloc? && m in s.ports[s.tap.pid].free
    case TapRead(_) => s.tap.TapAtRead?
    case TapEnqueue => s.tap.TapAtEnqueue?
    case FwdCheck => s.fwd.AtCheck?
    case FwdDequeue => s.fwd.AtDequeue?
    case FwdTx(_) => s.fwd.AtTx?
    case FwdTxFree => s.fwd.AtTxFree?
    case FwdRx(n) => s.fwd.AtRx? && n <= Min(BURST_SIZE, |s.ports[s.fwd.pid].received|)
    case FwdInput => s.fwd.AtInput?
    case FwdInputFree => s.fwd.AtInputFree?
    case NicPost(pid, m) => pid < c.ports && m in s.ports[pid].free
    case NicReceive(pid, m, frame) => pid < c.ports && m in s.ports[pid].posted && |frame| >= ETHER_HEADER
    case NicSent(pid, m) => pid < c.ports && m in s.ports[pid].sending
  }

  /** `rte_ring_enqueue`: a full ring stays as it is and the caller is told, but does not listen. */
  function Enqueue(c: Config, ring: seq<Id>, m: Id): seq<Id> {
    if |ring| < c.slots then ring + [m] else ring
  }

  function TapPort(c: Config, p: Port, tap: TapThread, step: Step): Port
    requires step.TapAlloc? || step.TapRead? || step.TapEnqueue?
    requires step.TapRead? || step.TapEnqueue? ==> !tap.TapAtAlloc?
  {
    match step
    case TapAlloc(m) => p.(free := p.free - multiset{m})
    case TapRead(frame) => p.(store := p.store[tap.m := frame], tapIn := p.tapIn + [frame])
    case TapEnqueue => p.(ring := Enqueue(c, p.ring, tap.m))
  }

  function TapNext(c: Config, tap: TapThread, step: Step): TapThread
    requires step.TapAlloc? || step.TapRead? || step.TapEnqueue?
    requires step.TapRead? || step.TapEnqueue? ==> !tap.TapAtAlloc?
  {
    match step
    case TapAlloc(m) => TapAtRead(tap.pid, m)
    case TapRead(_) => TapAtEnqueue(tap.pid, tap.m)
    case TapEnqueue => TapAtAlloc(NextPid(c, tap.pid))
  }

  predicate IsFwd(step: Step) {
    step.FwdCheck? || step.FwdDequeue? || step.FwdTx? || step.FwdTxFree? || step.FwdRx?
    || step.FwdInput? || step.FwdInputFree?
  }

  predicate FwdEnabled(p: Port, fwd: FwdThread, step: Step) {
    match step
    case FwdCheck => fwd.AtCheck?
    case FwdDequeue => fwd.AtDequeue?
    case FwdTx(_) => fwd.AtTx? && fwd.i < |fwd.mbufs|
    case FwdTxFree => fwd.AtTxFree? && fwd.i < |fwd.mbufs|
    case FwdRx(n) => fwd.AtRx? && n <= Min(BURST_SIZE, |p.received|)
    case FwdInput => fwd.AtInput? && fwd.i < |fwd.bufs|
    case FwdInputFree => fwd.AtInputFree? && fwd.i < |fwd.bufs|
    case _ => false
  }

  function FwdPort(p: Port, fwd: FwdThread, step: Step): Port
    requires FwdEnabled(p, fwd, step)
  {
    match step
    case FwdCheck => p.(visits := p.visits + 1)
    case FwdDequeue => p.(ring := p.ring[Min(BURST_SIZE, |p.ring|)..])
    case FwdTx(accepted) =>
      var m := fwd.mbufs[fwd.i];
      p.(sent := p.sent + [Sent(Content(p.store, m), accepted)],
         sending := if accepted then p.sending + multiset{m} else p.sending)
    case FwdTxFree => p.(free := p.free + multiset{fwd.mbufs[fwd.i]})
    case FwdRx(n) => p.(received := p.received[n..])
    case FwdInput =>
      var frame := Content(p.store, fwd.bufs[fwd.i]);
      p.(handled := p.handled + [frame], tapOut := if ForHost(frame) then p.tapOut + [frame] else p.tapOut)
    case FwdInputFree => p.(free := p.free + multiset{fwd.bufs[fwd.i]}, freed := p.freed + 1)
  }

  function FwdNext(c: Config, p: Port, fwd: FwdThread, step: Step): FwdThread
    requires FwdEnabled(p, fwd, step)
  {
    match step
    case FwdCheck => if p.ring == [] then AtRx(fwd.pid) else AtDequeue(fwd.pid)
    case FwdDequeue => AfterTx(fwd.pid, p.ring[..Min(BURST_SIZE, |p.ring|)], 0)
    case FwdTx(accepted) =>
      if accepted then AfterTx(fwd.pid, fwd.mbufs, fwd.i + 1) else AtTxFree(fwd.pid, fwd.mbufs, fwd.i)
    case FwdTxFree => AfterTx(fwd.pid, fwd.mbufs, fwd.i + 1)
    case FwdRx(n) => AfterInput(c, fwd.pid, p.received[..n], 0)
    case FwdInput => AtInputFree(fwd.pid, fwd.bufs, fwd.i)
    case FwdInputFree => AfterInput(c, fwd.pid, fwd.bufs, fwd.i + 1)
  }

  predicate IsNic(step: Step) { step.NicPost? || step.NicReceive? || step.NicSent? }

  function NicPort(p: Port, step: Step): Port
    requires IsNic(step)
  {
    match step
    case NicPost(_, m) => p.(free := p.free - multiset{m}, posted := p.posted + multiset{m})
    case NicReceive(_, m, frame) =>
      p.(posted := p.posted - multiset{m}, received := p.received + [m],
         store := p.store[m := frame], wireIn := p.wireIn + [frame])
    case NicSent(_, m) => p.(sending := p.sending - multiset{m}, free := p.free + multiset{m})
  }

  function Apply(c: Config, s: State, step: Step): (t: State)
    requires WellTyped(c, s) && Enabled(c, s, step)
  {
    if IsNic(step) then
      s.(ports := s.ports[step.pid := NicPort(s.ports[step.pid], step)])
    else if IsFwd(step) then
      var p := s.ports[s.fwd.pid];
      s.(ports := s.ports[s.fwd.pid := FwdPort(p, s.fwd, step)], fwd := FwdNext(c, p, s.fwd, step))
    else
      var p := s.ports[s.tap.pid];
      s.(ports := s.ports[s.tap.pid := TapPort(c, p, s.tap, step)], tap := TapNext(c, s.tap, step))
  }

  /** The ids 0 .. n-1, once each. */
  function All(n: nat): (r: multiset<Id>)
    ensures |r| == n
    ensures forall m: Id :: r[m] == if m < n then 1 else 0
  {
    if n == 0 then multiset{} else All(n - 1) + multiset{n - 1}
  }

  function InitPort(c: Config): Port {
    Port(All(c.pool), [], multiset{}, [], multiset{}, map[], [], [], [], [], [], 0, 0)
  }

  function Init(c: Config): (s: State)
    requires c.ports > 0
  {
    State(seq(c.ports, _ => InitPort(c)), TapAtAlloc(0), AtCheck(0))
  }

  /** The state after a schedule, if every step of it is enabled in turn. */
  function Run(c: Config, s: State, steps: seq<Step>): (r: Option<State>)
    decreases |steps|
  {
    if steps == [] then Some(s)
    else if WellTyped(c, s) && Enabled(c, s, steps[0]) then Run(c, Apply(c, s, steps[0]), steps[1..])
    else None
  }

  ghost predicate Reachable(c: Config, s: State)
    requires c.ports > 0
  {
    exists steps :: Run(c, Init(c), steps) == Some(s)
  }

  // -------------------------------------------------------------- invariants

  predicate TapHolds(tap: TapThread, pid: nat, m: Id) {
    tap.pid == pid && !tap.TapAtAlloc? && tap.m == m
  }

  /** What is left of the transmit burst, without its first `skip` mbufs. */
  function FwdTxRest(fwd: FwdThread, pid: nat, skip: nat): seq<Id> {
    if fwd.pid == pid && (fwd.AtTx? || fwd.AtTxFree?) && fwd.i + skip <= |fwd.mbufs|
    then fwd.mbufs[fwd.i + skip..] else []
  }

  function FwdRxRest(fwd: FwdThread, pid: nat, skip: nat): seq<Id> {
    if fwd.pid == pid && (fwd.AtInput? || fwd.AtInputFree?) && fwd.i + skip <= |fwd.bufs|
    then fwd.bufs[fwd.i + skip..] else []
  }

  /** How often mbuf `m` of port `pid` is held, over the seven places an mbuf can be. */
  function Places(p: Port, tap: TapThread, fwd: FwdThread, pid: nat, m: Id): nat {
    p.free[m] + multiset(p.ring)[m] + p.posted[m] + multiset(p.received)[m] + p.sending[m]
    + (if TapHolds(tap, pid, m) then 1 else 0)
    + multiset(FwdTxRest(fwd, pid, 0))[m] + multiset(FwdRxRest(fwd, pid, 0))[m]
  }

  /** Dequeued for transmission but not yet handed to the card. */
  function TxPending(fwd: FwdThread, pid: nat): seq<Id> {
    FwdTxRest(fwd, pid, if fwd.AtTxFree? then 1 else 0)
  }

  /** Received in the current burst but not yet handled. */
  function RxPending(fwd: FwdThread, pid: nat): seq<Id> {
    FwdRxRest(fwd, pid, if fwd.AtInputFree? then 1 else 0)
  }

  /** The frame the tap thread has read and not yet enqueued. */
  function InHand(p: Port, tap: TapThread, pid: nat): seq<Frame> {
    if tap.TapAtEnqueue? && tap.pid == pid then [Content(p.store, tap.m)] else []
  }

  /** Every mbuf of the pool is in exactly one place: none is lost, held twice or freed twice. */
  ghost predicate Partition(c: Config, p: Port, tap: TapThread, fwd: FwdThread, pid: nat) {
    forall m: Id :: Places(p, tap, fwd, pid, m) == if m < c.pool then 1 else 0
  }

  /** Host to card: everything read from the tap is handed over, pending, queued or in hand, in that order. */
  predicate HostToNic(p: Port, tap: TapThread, fwd: FwdThread, pid: nat) {
    p.tapIn == SentFrames(p.sent) + Frames(p.store, TxPending(fwd, pid))
               + Frames(p.store, p.ring) + InHand(p, tap, pid)
  }

  /** Card to host: everything received is handled, pending or queued, in that order; each handled frame is
      written or not by its type and freed once. */
  predicate NicToHost(p: Port, fwd: FwdThread, pid: nat) {
    && p.wireIn == p.handled + Frames(p.store, RxPending(fwd, pid)) + Frames(p.store, p.received)
    && p.tapOut == HostFrames(p.handled)
    && |p.handled| == p.freed + if fwd.AtInputFree? && fwd.pid == pid then 1 else 0
  }

  ghost predicate PortInv(c: Config, p: Port, tap: TapThread, fwd: FwdThread, pid: nat) {
    && Partition(c, p, tap, fwd, pid)
    && HostToNic(p, tap, fwd, pid)
    && NicToHost(p, fwd, pid)
  }

  ghost predicate Inv(c: Config, s: State) {
    && WellTyped(c, s)
    && forall pid :: 0 <= pid < c.ports ==> PortInv(c, s.ports[pid], s.tap, s.fwd, pid)
  }
}
