/** What holds in every state yak's threads and cards can reach, whatever the interleaving. */
module ForwarderSafety {
  import opened Bytes
  import opened Sequences
  import opened Forwarder

  // ------------------------------------------------------------ ingredients

  lemma FramesConcat(store: map<Id, Frame>, a: seq<Id>, b: seq<Id>)
    ensures Frames(store, a + b) == Frames(store, a) + Frames(store, b)
  {
  }

  /** Writing into an mbuf that is not listed leaves the listed frames alone. */
  lemma FramesFrame(store: map<Id, Frame>, m: Id, frame: Frame, ids: seq<Id>)
    requires m !in ids
    ensures Frames(store[m := frame], ids) == Frames(store, ids)
  {
  }

  lemma SentAppend(sent: seq<Sent>, x: Sent)
    ensures SentFrames(sent + [x]) == SentFrames(sent) + [x.frame]
  {
  }

  lemma HostFramesAppend(fs: seq<Frame>, x: Frame)
    ensures HostFrames(fs + [x]) == HostFrames(fs) + if ForHost(x) then [x] else []
  {
    assert (fs + [x])[..|fs|] == fs;
  }

  lemma SplitCount(s: seq<Id>, k: nat, m: Id)
    requires k <= |s|
    ensures multiset(s)[m] == multiset(s[..k])[m] + multiset(s[k..])[m]
  {
    assert s == s[..k] + s[k..];
  }

  lemma HeadCount(s: seq<Id>, k: nat, m: Id)
    requires k < |s|
    ensures multiset(s[k..])[m] == multiset(s[k + 1..])[m] + if s[k] == m then 1 else 0
  {
    assert s[k..] == [s[k]] + s[k + 1..];
  }

  lemma AppendCount(s: seq<Id>, x: Id, m: Id)
    ensures multiset(s + [x])[m] == multiset(s)[m] + if x == m then 1 else 0
  {
  }

  // -------------------------------------------------------- ownership is exclusive

  /** No mbuf of the pool is in two places, and nothing else is in any. */
  ghost predicate AtMostOnce(c: Config, p: Port, tap: TapThread, fwd: FwdThread, pid: nat) {
    forall m: Id :: Places(p, tap, fwd, pid, m) <= if m < c.pool then 1 else 0
  }

  /** An mbuf being filled is in no queue. */
  lemma NotElsewhere(c: Config, p: Port, tap: TapThread, fwd: FwdThread, pid: nat, m: Id)
    requires AtMostOnce(c, p, tap, fwd, pid)
    requires TapHolds(tap, pid, m) || m in p.posted
    ensures m !in p.ring && m !in p.received && m !in TxPending(fwd, pid) && m !in RxPending(fwd, pid)
    ensures m in p.posted ==> !TapHolds(tap, pid, m)
  {
    assert Places(p, tap, fwd, pid, m) <= 1;
    assert m in p.ring ==> m in multiset(p.ring);
    assert m in p.received ==> m in multiset(p.received);
    assert multiset(FwdTxRest(fwd, pid, 0))[m] == 0 && multiset(FwdRxRest(fwd, pid, 0))[m] == 0;
    assert m !in FwdTxRest(fwd, pid, 0) && m !in FwdRxRest(fwd, pid, 0);
  }

  lemma SubMultisetCard(a: multiset<Id>, b: multiset<Id>)
    requires a <= b
    ensures |a| <= |b|
  {
    assert b == a + (b - a);
  }

  /** The ring cannot be full while the tap thread holds an mbuf of the port. */
  lemma RoomForHand(c: Config, p: Port, tap: TapThread, fwd: FwdThread, pid: nat)
    requires c.pool <= c.slots
    requires Partition(c, p, tap, fwd, pid)
    requires tap.pid == pid && !tap.TapAtAlloc?
    ensures |p.ring| < c.slots
  {
    var held := multiset(p.ring) + multiset{tap.m};
    forall m: Id ensures held[m] <= All(c.pool)[m] {
      assert Places(p, tap, fwd, pid, m) >= held[m];
    }
    SubMultisetCard(held, All(c.pool));
  }

  // ------------------------------------------------------------- the tap thread

  predicate TapEnabled(p: Port, tap: TapThread, step: Step) {
    match step
    case TapAlloc(m) => tap.TapAtAlloc? && m in p.free
    case TapRead(_) => tap.TapAtRead?
    case TapEnqueue => tap.TapAtEnqueue?
    case _ => false
  }

  /** A step of the tap thread moves an mbuf from place to place, or loses it on a full ring. */
  lemma TapPlaces(c: Config, p: Port, tap: TapThread, fwd: FwdThread, step: Step, m: Id)
    requires TapEnabled(p, tap, step)
    ensures Places(TapPort(c, p, tap, step), TapNext(c, tap, step), fwd, tap.pid, m)
            + (if step.TapEnqueue? && |p.ring| >= c.slots && m == tap.m then 1 else 0)
         == Places(p, tap, fwd, tap.pid, m)
  {
    if step.TapEnqueue? {
      AppendCount(p.ring, tap.m, m);
    }
  }

  lemma TapAtMostOnce(c: Config, p: Port, tap: TapThread, fwd: FwdThread, step: Step)
    requires TapEnabled(p, tap, step) && AtMostOnce(c, p, tap, fwd, tap.pid)
    ensures AtMostOnce(c, TapPort(c, p, tap, step), TapNext(c, tap, step), fwd, tap.pid)
  {
    var q, next := TapPort(c, p, tap, step), TapNext(c, tap, step);
    forall m: Id ensures Places(q, next, fwd, tap.pid, m) <= Places(p, tap, fwd, tap.pid, m) {
      TapPlaces(c, p, tap, fwd, step, m);
    }
  }

  lemma TapPartition(c: Config, p: Port, tap: TapThread, fwd: FwdThread, step: Step)
    requires c.pool <= c.slots && TapEnabled(p, tap, step)
    requires Partition(c, p, tap, fwd, tap.pid)
    ensures Partition(c, TapPort(c, p, tap, step), TapNext(c, tap, step), fwd, tap.pid)
  {
    var q, next := TapPort(c, p, tap, step), TapNext(c, tap, step);
    if step.TapEnqueue? {
      RoomForHand(c, p, tap, fwd, tap.pid);
    }
    forall m: Id ensures Places(q, next, fwd, tap.pid, m) == Places(p, tap, fwd, tap.pid, m) {
      TapPlaces(c, p, tap, fwd, step, m);
    }
  }

  lemma ReadHostToNic(c: Config, p: Port, tap: TapThread, fwd: FwdThread, frame: Frame)
    requires tap.TapAtRead?
    requires Partition(c, p, tap, fwd, tap.pid) && HostToNic(p, tap, fwd, tap.pid)
    ensures HostToNic(TapPort(c, p, tap, TapRead(frame)), TapAtEnqueue(tap.pid, tap.m), fwd, tap.pid)
  {
    NotElsewhere(c, p, tap, fwd, tap.pid, tap.m);
    FramesFrame(p.store, tap.m, frame, TxPending(fwd, tap.pid));
    FramesFrame(p.store, tap.m, frame, p.ring);
  }

  lemma EnqueueHostToNic(p: Port, tap: TapThread, fwd: FwdThread, next: nat)
    requires tap.TapAtEnqueue? && HostToNic(p, tap, fwd, tap.pid)
    ensures HostToNic(p.(ring := p.ring + [tap.m]), TapAtAlloc(next), fwd, tap.pid)
  {
    FramesConcat(p.store, p.ring, [tap.m]);
    assert Frames(p.store, [tap.m]) == InHand(p, tap, tap.pid);
  }

  lemma TapHostToNic(c: Config, p: Port, tap: TapThread, fwd: FwdThread, step: Step)
    requires tap.pid < c.ports && c.pool <= c.slots && TapEnabled(p, tap, step)
    requires Partition(c, p, tap, fwd, tap.pid) && HostToNic(p, tap, fwd, tap.pid)
    ensures HostToNic(TapPort(c, p, tap, step), TapNext(c, tap, step), fwd, tap.pid)
  {
    match step
    case TapAlloc(m) =>
    case TapRead(frame) => ReadHostToNic(c, p, tap, fwd, frame);
    case TapEnqueue =>
      RoomForHand(c, p, tap, fwd, tap.pid);
      EnqueueHostToNic(p, tap, fwd, NextPid(c, tap.pid));
  }

  lemma TapNicToHost(c: Config, p: Port, tap: TapThread, fwd: FwdThread, step: Step)
    requires TapEnabled(p, tap, step)
    requires AtMostOnce(c, p, tap, fwd, tap.pid) && NicToHost(p, fwd, tap.pid)
    ensures NicToHost(TapPort(c, p, tap, step), fwd, tap.pid)
  {
    if step.TapRead? {
      NotElsewhere(c, p, tap, fwd, tap.pid, tap.m);
      FramesFrame(p.store, tap.m, step.frame, RxPending(fwd, tap.pid));
      FramesFrame(p.store, tap.m, step.frame, p.received);
    }
  }

  // ------------------------------------------------------ the forwarding thread

  lemma DequeuePlaces(c: Config, p: Port, tap: TapThread, fwd: FwdThread, step: Step, m: Id)
    requires FwdEnabled(p, fwd, step) && step.FwdDequeue?
    ensures Places(FwdPort(p, fwd, step), tap, FwdNext(c, p, fwd, step), fwd.pid, m)
         == Places(p, tap, fwd, fwd.pid, m)
  {
    hide AfterTx, FwdTxRest, FwdRxRest;
    BurstNow(fwd);
    var k := Min(BURST_SIZE, |p.ring|);
    SplitCount(p.ring, k, m);
    AfterTxRest(fwd.pid, p.ring[..k], 0);
    assert p.ring[..k][0..] == p.ring[..k];
  }

  /** What is left of a burst when its first `i` mbufs are done. */
  lemma AfterTxRest(pid: nat, mbufs: seq<Id>, i: nat)
    requires i <= |mbufs|
    ensures FwdTxRest(AfterTx(pid, mbufs, i), pid, 0) == mbufs[i..]
    ensures FwdRxRest(AfterTx(pid, mbufs, i), pid, 0) == []
  {
  }

  lemma AfterInputRest(c: Config, pid: nat, bufs: seq<Id>, i: nat)
    requires i <= |bufs|
    ensures FwdRxRest(AfterInput(c, pid, bufs, i), pid, 0) == bufs[i..]
    ensures FwdTxRest(AfterInput(c, pid, bufs, i), pid, 0) == []
  {
  }

  /** What is left of a burst now. */
  lemma BurstNow(fwd: FwdThread)
    ensures fwd.AtTx? || fwd.AtTxFree? ==> fwd.i <= |fwd.mbufs| ==>
      FwdTxRest(fwd, fwd.pid, 0) == fwd.mbufs[fwd.i..] && FwdRxRest(fwd, fwd.pid, 0) == []
    ensures fwd.AtInput? || fwd.AtInputFree? ==> fwd.i <= |fwd.bufs| ==>
      FwdTxRest(fwd, fwd.pid, 0) == [] && FwdRxRest(fwd, fwd.pid, 0) == fwd.bufs[fwd.i..]
    ensures fwd.AtCheck? || fwd.AtDequeue? || fwd.AtRx? ==>
      FwdTxRest(fwd, fwd.pid, 0) == [] && FwdRxRest(fwd, fwd.pid, 0) == []
  {
  }

  lemma TxPlaces(c: Config, p: Port, tap: TapThread, fwd: FwdThread, step: Step, m: Id)
    requires FwdEnabled(p, fwd, step) && step.FwdTx?
    ensures Places(FwdPort(p, fwd, step), tap, FwdNext(c, p, fwd, step), fwd.pid, m)
         == Places(p, tap, fwd, fwd.pid, m)
  {
    hide AfterTx, FwdTxRest, FwdRxRest;
    BurstNow(fwd);
    BurstNow(FwdNext(c, p, fwd, step));
    HeadCount(fwd.mbufs, fwd.i, m);
    AfterTxRest(fwd.pid, fwd.mbufs, fwd.i + 1);
  }

  lemma TxFreePlaces(c: Config, p: Port, tap: TapThread, fwd: FwdThread, step: Step, m: Id)
    requires FwdEnabled(p, fwd, step) && step.FwdTxFree?
    ensures Places(FwdPort(p, fwd, step), tap, FwdNext(c, p, fwd, step), fwd.pid, m)
         == Places(p, tap, fwd, fwd.pid, m)
  {
    hide AfterTx, FwdTxRest, FwdRxRest;
    BurstNow(fwd);
    BurstNow(FwdNext(c, p, fwd, step));
    HeadCount(fwd.mbufs, fwd.i, m);
    AfterTxRest(fwd.pid, fwd.mbufs, fwd.i + 1);
  }

  lemma RxPlaces(c: Config, p: Port, tap: TapThread, fwd: FwdThread, step: Step, m: Id)
    requires FwdEnabled(p, fwd, step) && step.FwdRx?
    ensures Places(FwdPort(p, fwd, step), tap, FwdNext(c, p, fwd, step), fwd.pid, m)
         == Places(p, tap, fwd, fwd.pid, m)
  {
    hide AfterInput, FwdTxRest, FwdRxRest;
    BurstNow(fwd);
    SplitCount(p.received, step.count, m);
    AfterInputRest(c, fwd.pid, p.received[..step.count], 0);
    assert p.received[..step.count][0..] == p.received[..step.count];
  }

  lemma InputFreePlaces(c: Config, p: Port, tap: TapThread, fwd: FwdThread, step: Step, m: Id)
    requires FwdEnabled(p, fwd, step) && step.FwdInputFree?
    ensures Places(FwdPort(p, fwd, step), tap, FwdNext(c, p, fwd, step), fwd.pid, m)
         == Places(p, tap, fwd, fwd.pid, m)
  {
    hide AfterInput, FwdTxRest, FwdRxRest;
    BurstNow(fwd);
    HeadCount(fwd.bufs, fwd.i, m);
    AfterInputRest(c, fwd.pid, fwd.bufs, fwd.i + 1);
  }

  lemma FwdPlaces(c: Config, p: Port, tap: TapThread, fwd: FwdThread, step: Step, m: Id)
    requires FwdEnabled(p, fwd, step)
    ensures Places(FwdPort(p, fwd, step), tap, FwdNext(c, p, fwd, step), fwd.pid, m)
         == Places(p, tap, fwd, fwd.pid, m)
  {
    match step
    case FwdCheck =>
    case FwdDequeue => DequeuePlaces(c, p, tap, fwd, step, m);
    case FwdTx(_) => TxPlaces(c, p, tap, fwd, step, m);
    case FwdTxFree => TxFreePlaces(c, p, tap, fwd, step, m);
    case FwdRx(_) => RxPlaces(c, p, tap, fwd, step, m);
    case FwdInput =>
    case FwdInputFree => InputFreePlaces(c, p, tap, fwd, step, m);
  }

  lemma FwdAtMostOnce(c: Config, p: Port, tap: TapThread, fwd: FwdThread, step: Step)
    requires FwdEnabled(p, fwd, step) && AtMostOnce(c, p, tap, fwd, fwd.pid)
    ensures AtMostOnce(c, FwdPort(p, fwd, step), tap, FwdNext(c, p, fwd, step), fwd.pid)
  {
    var q, next := FwdPort(p, fwd, step), FwdNext(c, p, fwd, step);
    forall m: Id ensures Places(q, tap, next, fwd.pid, m) == Places(p, tap, fwd, fwd.pid, m) {
      FwdPlaces(c, p, tap, fwd, step, m);
    }
  }

  lemma FwdPartition(c: Config, p: Port, tap: TapThread, fwd: FwdThread, step: Step)
    requires FwdEnabled(p, fwd, step) && Partition(c, p, tap, fwd, fwd.pid)
    ensures Partition(c, FwdPort(p, fwd, step), tap, FwdNext(c, p, fwd, step), fwd.pid)
  {
    var q, next := FwdPort(p, fwd, step), FwdNext(c, p, fwd, step);
    forall m: Id ensures Places(q, tap, next, fwd.pid, m) == Places(p, tap, fwd, fwd.pid, m) {
      FwdPlaces(c, p, tap, fwd, step, m);
    }
  }

  lemma DequeueHostToNic(p: Port, q: Port, tap: TapThread, fwd: FwdThread, next: FwdThread, k: nat)
    requires fwd.AtDequeue? && k <= |p.ring| && HostToNic(p, tap, fwd, fwd.pid)
    requires q == p.(ring := p.ring[k..]) && next == AfterTx(fwd.pid, p.ring[..k], 0)
    ensures HostToNic(q, tap, next, fwd.pid)
  {
    FramesConcat(p.store, p.ring[..k], p.ring[k..]);
    assert p.ring == p.ring[..k] + p.ring[k..];
    assert TxPending(next, fwd.pid) == p.ring[..k];
    Regroup(SentFrames(p.sent), Frames(p.store, p.ring[..k]), Frames(p.store, p.ring[k..]), InHand(p, tap, fwd.pid));
  }

  lemma Regroup<T>(a: seq<T>, b: seq<T>, d: seq<T>, e: seq<T>)
    ensures a + [] + (b + d) + e == a + b + d + e
    ensures a + [] + (b + d) == a + b + d
  {
  }

  lemma TxPendingNext(c: Config, p: Port, fwd: FwdThread, accepted: bool)
    requires FwdEnabled(p, fwd, FwdTx(accepted))
    ensures var rest := TxPending(FwdNext(c, p, fwd, FwdTx(accepted)), fwd.pid);
      TxPending(fwd, fwd.pid) == [fwd.mbufs[fwd.i]] + rest
  {
  }

  lemma TxHostToNic(c: Config, p: Port, tap: TapThread, fwd: FwdThread, accepted: bool)
    requires FwdEnabled(p, fwd, FwdTx(accepted)) && HostToNic(p, tap, fwd, fwd.pid)
    ensures HostToNic(FwdPort(p, fwd, FwdTx(accepted)), tap, FwdNext(c, p, fwd, FwdTx(accepted)), fwd.pid)
  {
    var q, next := FwdPort(p, fwd, FwdTx(accepted)), FwdNext(c, p, fwd, FwdTx(accepted));
    var x, rest := Content(p.store, fwd.mbufs[fwd.i]), TxPending(next, fwd.pid);
    TxPendingNext(c, p, fwd, accepted);
    SentAppend(p.sent, Sent(x, accepted));
    FramesConcat(p.store, [fwd.mbufs[fwd.i]], rest);
    assert Frames(p.store, [fwd.mbufs[fwd.i]]) == [x];
    Reassociate(SentFrames(p.sent), x, Frames(p.store, rest), Frames(p.store, p.ring), InHand(p, tap, fwd.pid));
  }

  lemma Reassociate<T>(a: seq<T>, x: T, b: seq<T>, d: seq<T>, e: seq<T>)
    ensures a + ([x] + b) + d + e == (a + [x]) + b + d + e
    ensures a + ([x] + b) + d == (a + [x]) + b + d
  {
  }

  lemma FwdHostToNic(c: Config, p: Port, tap: TapThread, fwd: FwdThread, step: Step)
    requires FwdEnabled(p, fwd, step) && HostToNic(p, tap, fwd, fwd.pid)
    ensures HostToNic(FwdPort(p, fwd, step), tap, FwdNext(c, p, fwd, step), fwd.pid)
  {
    match step
    case FwdDequeue =>
      DequeueHostToNic(p, FwdPort(p, fwd, step), tap, fwd, FwdNext(c, p, fwd, step), Min(BURST_SIZE, |p.ring|));
    case FwdTx(accepted) => TxHostToNic(c, p, tap, fwd, accepted);
    case _ =>
  }

  lemma RxNicToHost(c: Config, p: Port, q: Port, fwd: FwdThread, next: FwdThread, n: nat)
    requires fwd.AtRx? && n <= |p.received| && NicToHost(p, fwd, fwd.pid)
    requires q == p.(received := p.received[n..]) && next == AfterInput(c, fwd.pid, p.received[..n], 0)
    ensures NicToHost(q, next, fwd.pid)
  {
    FramesConcat(p.store, p.received[..n], p.received[n..]);
    assert p.received == p.received[..n] + p.received[n..];
    assert RxPending(next, fwd.pid) == p.received[..n];
    assert RxPending(fwd, fwd.pid) == [] && Frames(p.store, []) == [];
    Regroup(p.handled, Frames(p.store, p.received[..n]), Frames(p.store, p.received[n..]), []);
  }

  lemma InputNicToHost(p: Port, q: Port, fwd: FwdThread, next: FwdThread, frame: Frame)
    requires fwd.AtInput? && fwd.i < |fwd.bufs| && NicToHost(p, fwd, fwd.pid)
    requires frame == Content(p.store, fwd.bufs[fwd.i]) && next == AtInputFree(fwd.pid, fwd.bufs, fwd.i)
    requires q == p.(handled := p.handled + [frame],
                     tapOut := if ForHost(frame) then p.tapOut + [frame] else p.tapOut)
    ensures NicToHost(q, next, fwd.pid)
  {
    HostFramesAppend(p.handled, frame);
    var rest := fwd.bufs[fwd.i + 1..];
    FramesConcat(p.store, [fwd.bufs[fwd.i]], rest);
    assert RxPending(fwd, fwd.pid) == [fwd.bufs[fwd.i]] + rest && RxPending(next, fwd.pid) == rest;
    assert Frames(p.store, [fwd.bufs[fwd.i]]) == [frame];
    Reassociate(p.handled, frame, Frames(p.store, rest), Frames(p.store, p.received), []);
  }

  lemma FwdNicToHost(c: Config, p: Port, q: Port, fwd: FwdThread, next: FwdThread, step: Step)
    requires FwdEnabled(p, fwd, step) && NicToHost(p, fwd, fwd.pid)
    requires q == FwdPort(p, fwd, step) && next == FwdNext(c, p, fwd, step)
    ensures NicToHost(q, next, fwd.pid)
  {
    match step
    case FwdRx(n) => RxNicToHost(c, p, q, fwd, next, n);
    case FwdInput => InputNicToHost(p, q, fwd, next, Content(p.store, fwd.bufs[fwd.i]));
    case _ =>
  }

  // ------------------------------------------------------------------ the cards

  predicate NicEnabled(p: Port, step: Step) {
    match step
    case NicPost(_, m) => m in p.free
    case NicReceive(_, m, frame) => m in p.posted && |frame| >= ETHER_HEADER
    case NicSent(_, m) => m in p.sending
    case _ => false
  }

  lemma NicPlaces(p: Port, tap: TapThread, fwd: FwdThread, pid: nat, step: Step, m: Id)
    requires NicEnabled(p, step)
    ensures Places(NicPort(p, step), tap, fwd, pid, m) == Places(p, tap, fwd, pid, m)
  {
    if step.NicReceive? {
      AppendCount(p.received, step.m, m);
    }
  }

  lemma NicPartition(c: Config, p: Port, tap: TapThread, fwd: FwdThread, pid: nat, step: Step)
    requires NicEnabled(p, step) && Partition(c, p, tap, fwd, pid)
    ensures Partition(c, NicPort(p, step), tap, fwd, pid)
  {
    var q := NicPort(p, step);
    forall m: Id ensures Places(q, tap, fwd, pid, m) == Places(p, tap, fwd, pid, m) {
      NicPlaces(p, tap, fwd, pid, step, m);
    }
  }

  lemma NicAtMostOnce(c: Config, p: Port, tap: TapThread, fwd: FwdThread, pid: nat, step: Step)
    requires NicEnabled(p, step) && AtMostOnce(c, p, tap, fwd, pid)
    ensures AtMostOnce(c, NicPort(p, step), tap, fwd, pid)
  {
    var q := NicPort(p, step);
    forall m: Id ensures Places(q, tap, fwd, pid, m) == Places(p, tap, fwd, pid, m) {
      NicPlaces(p, tap, fwd, pid, step, m);
    }
  }

  lemma NicHostToNic(c: Config, p: Port, tap: TapThread, fwd: FwdThread, pid: nat, step: Step)
    requires NicEnabled(p, step) && AtMostOnce(c, p, tap, fwd, pid) && HostToNic(p, tap, fwd, pid)
    ensures HostToNic(NicPort(p, step), tap, fwd, pid)
  {
    if step.NicReceive? {
      NotElsewhere(c, p, tap, fwd, pid, step.m);
      FramesFrame(p.store, step.m, step.frame, TxPending(fwd, pid));
      FramesFrame(p.store, step.m, step.frame, p.ring);
    }
  }

  lemma NicNicToHost(c: Config, p: Port, tap: TapThread, fwd: FwdThread, pid: nat, step: Step)
    requires NicEnabled(p, step) && AtMostOnce(c, p, tap, fwd, pid) && NicToHost(p, fwd, pid)
    ensures NicToHost(NicPort(p, step), fwd, pid)
  {
    if step.NicReceive? {
      NotElsewhere(c, p, tap, fwd, pid, step.m);
      FramesFrame(p.store, step.m, step.frame, RxPending(fwd, pid));
      FramesFrame(p.store, step.m, step.frame, p.received);
      FramesConcat(p.store[step.m := step.frame], p.received, [step.m]);
      assert Frames(p.store[step.m := step.frame], [step.m]) == [step.frame];
    }
  }

  // ------------------------------------------------------------ the whole system

  /** A thread that is at another port, before and after, matters to a port neither way. */
  lemma OtherPort(c: Config, p: Port, tap: TapThread, fwd: FwdThread, tap': TapThread, fwd': FwdThread, pid: nat)
    requires PortInv(c, p, tap, fwd, pid)
    requires tap' == tap || (tap.pid != pid && (tap'.pid != pid || tap'.TapAtAlloc?))
    requires fwd' == fwd || (fwd.pid != pid && (fwd'.pid != pid || fwd'.AtCheck?))
    ensures PortInv(c, p, tap', fwd', pid)
  {
    forall m: Id ensures Places(p, tap', fwd', pid, m) == Places(p, tap, fwd, pid, m) {
    }
  }

  lemma TapStepKeeps(c: Config, s: State, step: Step)
    requires Inv(c, s) && c.pool <= c.slots && Enabled(c, s, step) && !IsNic(step) && !IsFwd(step)
    ensures Inv(c, Apply(c, s, step))
  {
    var t := Apply(c, s, step);
    var at := s.tap.pid;
    TapPartition(c, s.ports[at], s.tap, s.fwd, step);
    TapHostToNic(c, s.ports[at], s.tap, s.fwd, step);
    TapNicToHost(c, s.ports[at], s.tap, s.fwd, step);
    // Advancing to the next port moves an empty hand.
    forall pid | 0 <= pid < c.ports ensures PortInv(c, t.ports[pid], t.tap, t.fwd, pid) {
      if pid != at {
        OtherPort(c, s.ports[pid], s.tap, s.fwd, t.tap, t.fwd, pid);
      }
    }
  }

  lemma FwdWellTyped(c: Config, s: State, step: Step)
    requires WellTyped(c, s) && Enabled(c, s, step) && IsFwd(step)
    ensures WellTyped(c, Apply(c, s, step))
  {
  }

  lemma FwdPortKeeps(c: Config, p: Port, q: Port, tap: TapThread, fwd: FwdThread, next: FwdThread, step: Step)
    requires FwdEnabled(p, fwd, step) && PortInv(c, p, tap, fwd, fwd.pid)
    requires q == FwdPort(p, fwd, step) && next == FwdNext(c, p, fwd, step)
    ensures PortInv(c, q, tap, next, fwd.pid)
    ensures next.pid == fwd.pid || next.AtCheck?
  {
    FwdPartition(c, p, tap, fwd, step);
    FwdHostToNic(c, p, tap, fwd, step);
    FwdNicToHost(c, p, q, fwd, next, step);
  }

  /** What a step changes: one port, and the thread that takes it. */
  lemma FwdApplied(c: Config, s: State, step: Step)
    requires WellTyped(c, s) && Enabled(c, s, step) && IsFwd(step)
    ensures var p, t := s.ports[s.fwd.pid], Apply(c, s, step);
      && FwdEnabled(p, s.fwd, step)
      && t == State(s.ports[s.fwd.pid := FwdPort(p, s.fwd, step)], s.tap, FwdNext(c, p, s.fwd, step))
  {
  }

  lemma TapApplied(c: Config, s: State, step: Step)
    requires WellTyped(c, s) && Enabled(c, s, step) && !IsNic(step) && !IsFwd(step)
    ensures var p, t := s.ports[s.tap.pid], Apply(c, s, step);
      && TapEnabled(p, s.tap, step)
      && t == State(s.ports[s.tap.pid := TapPort(c, p, s.tap, step)], TapNext(c, s.tap, step), s.fwd)
  {
  }

  lemma NicApplied(c: Config, s: State, step: Step)
    requires WellTyped(c, s) && Enabled(c, s, step) && IsNic(step)
    ensures NicEnabled(s.ports[step.pid], step)
    ensures Apply(c, s, step) == s.(ports := s.ports[step.pid := NicPort(s.ports[step.pid], step)])
  {
  }

  lemma FwdStepKeeps(c: Config, s: State, step: Step)
    requires Inv(c, s) && Enabled(c, s, step) && IsFwd(step)
    ensures Inv(c, Apply(c, s, step))
  {
    hide PortInv, FwdPort, FwdNext, Apply, Enabled;
    FwdApplied(c, s, step);
    var at, p := s.fwd.pid, s.ports[s.fwd.pid];
    var q, next := FwdPort(p, s.fwd, step), FwdNext(c, p, s.fwd, step);
    FwdWellTyped(c, s, step);
    FwdPortKeeps(c, p, q, s.tap, s.fwd, next, step);
    forall pid | 0 <= pid < c.ports && pid != at ensures PortInv(c, s.ports[pid], s.tap, next, pid) {
      OtherPort(c, s.ports[pid], s.tap, s.fwd, s.tap, next, pid);
    }
  }

  lemma NicStepKeeps(c: Config, s: State, step: Step)
    requires Inv(c, s) && Enabled(c, s, step) && IsNic(step)
    ensures Inv(c, Apply(c, s, step))
  {
    var p := s.ports[step.pid];
    assert PortInv(c, NicPort(p, step), s.tap, s.fwd, step.pid) by {
      NicPartition(c, p, s.tap, s.fwd, step.pid, step);
      NicHostToNic(c, p, s.tap, s.fwd, step.pid, step);
      NicNicToHost(c, p, s.tap, s.fwd, step.pid, step);
    }
  }

  lemma StepKeeps(c: Config, s: State, step: Step)
    requires Inv(c, s) && c.pool <= c.slots && Enabled(c, s, step)
    ensures Inv(c, Apply(c, s, step))
  {
    if IsNic(step) { NicStepKeeps(c, s, step); }
    else if IsFwd(step) { FwdStepKeeps(c, s, step); }
    else { TapStepKeeps(c, s, step); }
  }

  lemma InitInv(c: Config)
    requires c.ports > 0
    ensures Inv(c, Init(c))
  {
    var s := Init(c);
    forall pid | 0 <= pid < c.ports ensures PortInv(c, s.ports[pid], s.tap, s.fwd, pid) {
      assert s.ports[pid] == InitPort(c);
    }
  }

  /** A run of any length, with any interleaving, keeps the invariant. */
  lemma {:induction false} RunKeeps(c: Config, s: State, steps: seq<Step>, t: State)
    requires Inv(c, s) && c.pool <= c.slots
    requires Run(c, s, steps) == Some(t)
    ensures Inv(c, t)
    decreases |steps|
  {
    if steps == [] {
    } else {
      StepKeeps(c, s, steps[0]);
      RunKeeps(c, Apply(c, s, steps[0]), steps[1..], t);
    }
  }

  lemma ReachableInv(c: Config, s: State)
    requires c.ports > 0 && c.pool <= c.slots && Reachable(c, s)
    ensures Inv(c, s)
  {
    var steps :| Run(c, Init(c), steps) == Some(s);
    InitInv(c);
    RunKeeps(c, Init(c), steps, s);
  }

  // ------------------------------------------------------------------ any sizes

  /** What holds of a port whatever the sizes: no mbuf is in two places, and frames for the host keep their order. */
  ghost predicate PortSafe(c: Config, p: Port, tap: TapThread, fwd: FwdThread, pid: nat) {
    AtMostOnce(c, p, tap, fwd, pid) && NicToHost(p, fwd, pid)
  }

  ghost predicate Safe(c: Config, s: State) {
    && WellTyped(c, s)
    && forall pid :: 0 <= pid < c.ports ==> PortSafe(c, s.ports[pid], s.tap, s.fwd, pid)
  }

  lemma OtherPortSafe(c: Config, p: Port, tap: TapThread, fwd: FwdThread, tap': TapThread, fwd': FwdThread, pid: nat)
    requires PortSafe(c, p, tap, fwd, pid)
    requires tap' == tap || (tap.pid != pid && (tap'.pid != pid || tap'.TapAtAlloc?))
    requires fwd' == fwd || (fwd.pid != pid && (fwd'.pid != pid || fwd'.AtCheck?))
    ensures PortSafe(c, p, tap', fwd', pid)
  {
    forall m: Id ensures Places(p, tap', fwd', pid, m) == Places(p, tap, fwd, pid, m) {
    }
  }

  lemma TapStepSafe(c: Config, s: State, step: Step)
    requires Safe(c, s) && Enabled(c, s, step) && !IsNic(step) && !IsFwd(step)
    ensures Safe(c, Apply(c, s, step))
  {
    hide AtMostOnce, NicToHost, TapPort;
    var t, at := Apply(c, s, step), s.tap.pid;
    TapAtMostOnce(c, s.ports[at], s.tap, s.fwd, step);
    TapNicToHost(c, s.ports[at], s.tap, s.fwd, step);
    forall pid | 0 <= pid < c.ports && pid != at ensures PortSafe(c, s.ports[pid], t.tap, s.fwd, pid) {
      OtherPortSafe(c, s.ports[pid], s.tap, s.fwd, t.tap, s.fwd, pid);
    }
  }

  lemma FwdStepSafe(c: Config, s: State, step: Step)
    requires Safe(c, s) && Enabled(c, s, step) && IsFwd(step)
    ensures Safe(c, Apply(c, s, step))
  {
    hide PortSafe, FwdPort, FwdNext, Apply, Enabled;
    FwdApplied(c, s, step);
    var at, p := s.fwd.pid, s.ports[s.fwd.pid];
    var q, next := FwdPort(p, s.fwd, step), FwdNext(c, p, s.fwd, step);
    FwdWellTyped(c, s, step);
    FwdPortSafe(c, p, q, s.tap, s.fwd, next, step);
    forall pid | 0 <= pid < c.ports && pid != at ensures PortSafe(c, s.ports[pid], s.tap, next, pid) {
      OtherPortSafe(c, s.ports[pid], s.tap, s.fwd, s.tap, next, pid);
    }
  }

  lemma FwdPortSafe(c: Config, p: Port, q: Port, tap: TapThread, fwd: FwdThread, next: FwdThread, step: Step)
    requires FwdEnabled(p, fwd, step) && PortSafe(c, p, tap, fwd, fwd.pid)
    requires q == FwdPort(p, fwd, step) && next == FwdNext(c, p, fwd, step)
    ensures PortSafe(c, q, tap, next, fwd.pid)
    ensures next.pid == fwd.pid || next.AtCheck?
  {
    hide AtMostOnce, NicToHost;
    FwdAtMostOnce(c, p, tap, fwd, step);
    FwdNicToHost(c, p, q, fwd, next, step);
  }

  lemma NicStepSafe(c: Config, s: State, step: Step)
    requires Safe(c, s) && Enabled(c, s, step) && IsNic(step)
    ensures Safe(c, Apply(c, s, step))
  {
    hide AtMostOnce, NicToHost, NicPort;
    NicAtMostOnce(c, s.ports[step.pid], s.tap, s.fwd, step.pid, step);
    NicNicToHost(c, s.ports[step.pid], s.tap, s.fwd, step.pid, step);
  }

  /** Whatever the sizes, no step puts an mbuf in two places or disturbs the frames for the host. */
  lemma StepSafe(c: Config, s: State, step: Step)
    requires Safe(c, s) && Enabled(c, s, step)
    ensures Safe(c, Apply(c, s, step))
  {
    if IsNic(step) { NicStepSafe(c, s, step); }
    else if IsFwd(step) { FwdStepSafe(c, s, step); }
    else { TapStepSafe(c, s, step); }
  }

  lemma {:induction false} RunSafe(c: Config, s: State, steps: seq<Step>, t: State)
    requires Safe(c, s) && Run(c, s, steps) == Some(t)
    ensures Safe(c, t)
    decreases |steps|
  {
    if steps == [] {
    } else {
      hide Apply, Enabled, Safe;
      SafeTyped(c, s);
      StepSafe(c, s, steps[0]);
      RunSafe(c, Apply(c, s, steps[0]), steps[1..], t);
    }
  }

  lemma SafeTyped(c: Config, s: State)
    requires Safe(c, s)
    ensures WellTyped(c, s)
  {
  }

  lemma InvSafe(c: Config, s: State)
    requires Inv(c, s)
    ensures Safe(c, s)
  {
    forall pid | 0 <= pid < c.ports ensures PortSafe(c, s.ports[pid], s.tap, s.fwd, pid) {
      assert PortInv(c, s.ports[pid], s.tap, s.fwd, pid);
    }
  }

  lemma ReachableSafe(c: Config, s: State)
    requires c.ports > 0 && Reachable(c, s)
    ensures Safe(c, s)
  {
    var steps :| Run(c, Init(c), steps) == Some(s);
    InitInv(c);
    InvSafe(c, Init(c));
    RunSafe(c, Init(c), steps, s);
  }
}
