/** The promises of yak over whole runs. */
module ForwarderRuns {
  import opened Bytes
  import opened Sequences
  import opened Forwarder
  import opened ForwarderSafety

  lemma {:induction false} RunAppend(c: Config, s: State, a: seq<Step>, t: State, b: seq<Step>)
    requires Run(c, s, a) == Some(t)
    ensures Run(c, s, a + b) == Run(c, t, b)
    decreases |a|
  {
    if a == [] {
      assert a + b == b;
    } else {
      assert (a + b)[1..] == a[1..] + b;
      RunAppend(c, Apply(c, s, a[0]), a[1..], t, b);
    }
  }

  // --------------------------------------------------------------- ownership

  /** No ring lists an mbuf twice. */
  lemma RingOnce(c: Config, p: Port, tap: TapThread, fwd: FwdThread, pid: nat)
    requires AtMostOnce(c, p, tap, fwd, pid)
    ensures forall i, j :: 0 <= i < j < |p.ring| ==> p.ring[i] != p.ring[j]
  {
    forall i, j | 0 <= i < j < |p.ring| ensures p.ring[i] != p.ring[j] {
      assert Places(p, tap, fwd, pid, p.ring[i]) <= 1;
      if p.ring[i] == p.ring[j] { TwiceCounts(p.ring, i, j); }
    }
  }

  /** The mbuf the forwarding thread is about to free. */
  function ToFree(fwd: FwdThread): Option<Id> {
    if fwd.AtTxFree? && fwd.i < |fwd.mbufs| then Some(fwd.mbufs[fwd.i])
    else if fwd.AtInputFree? && fwd.i < |fwd.bufs| then Some(fwd.bufs[fwd.i])
    else None
  }

  /** It is not free already. */
  lemma FreedOnce(c: Config, p: Port, tap: TapThread, fwd: FwdThread)
    requires AtMostOnce(c, p, tap, fwd, fwd.pid) && ToFree(fwd).Some?
    ensures ToFree(fwd).value !in p.free
  {
    var m := ToFree(fwd).value;
    if fwd.AtTxFree? {
      HeadCount(fwd.mbufs, fwd.i, m);
    } else {
      HeadCount(fwd.bufs, fwd.i, m);
    }
    assert Places(p, tap, fwd, fwd.pid, m) <= 1;
  }

  /** Whatever the sizes: in every reachable state no mbuf is in two places; so no ring lists one twice, and
      none about to be freed is free already. */
  lemma NoneTwice(c: Config, s: State, pid: nat)
    requires c.ports > 0 && Reachable(c, s) && pid < c.ports
    ensures |s.ports| == c.ports
    ensures var p := s.ports[pid];
      && (forall m: Id :: Places(p, s.tap, s.fwd, pid, m) <= if m < c.pool then 1 else 0)
      && (forall i, j :: 0 <= i < j < |p.ring| ==> p.ring[i] != p.ring[j])
      && (s.fwd.pid == pid && ToFree(s.fwd).Some? ==> ToFree(s.fwd).value !in p.free)
    ensures s.fwd.AtTxFree? || s.fwd.AtInputFree? ==> ToFree(s.fwd).Some?
  {
    hide Places, Run, NicToHost;
    ReachableSafe(c, s);
    assert PortSafe(c, s.ports[pid], s.tap, s.fwd, pid);
    RingOnce(c, s.ports[pid], s.tap, s.fwd, pid);
    if s.fwd.pid == pid && ToFree(s.fwd).Some? {
      FreedOnce(c, s.ports[pid], s.tap, s.fwd);
    }
  }

  /** If the ring can hold the pool, each mbuf of each pool is in exactly one place in every reachable state. */
  lemma NoneLostNoneTwice(c: Config, s: State, pid: nat)
    requires c.ports > 0 && c.pool <= c.slots && Reachable(c, s) && pid < c.ports
    ensures |s.ports| == c.ports
    ensures forall m: Id :: Places(s.ports[pid], s.tap, s.fwd, pid, m) == if m < c.pool then 1 else 0
  {
    hide Places, Run, HostToNic, NicToHost;
    ReachableInv(c, s);
    assert PortInv(c, s.ports[pid], s.tap, s.fwd, pid);
  }

  lemma TwiceCounts(s: seq<Id>, i: nat, j: nat)
    requires i < j < |s| && s[i] == s[j]
    ensures multiset(s)[s[i]] >= 2
  {
    assert s == s[..i] + [s[i]] + s[i + 1..j] + [s[j]] + s[j + 1..];
    var m := s[i];
    assert multiset(s)[m] == multiset(s[..i])[m] + 1 + multiset(s[i + 1..j])[m] + 1 + multiset(s[j + 1..])[m];
  }

  // ---------------------------------------------------------- the full ring

  /** The tap thread is about to enqueue on a full ring; the result it ignores would report the failure. */
  predicate EnqueueFails(c: Config, s: State) {
    s.tap.TapAtEnqueue? && s.tap.pid < |s.ports| && |s.ports[s.tap.pid].ring| >= c.slots
  }

  /** Steps of the tap thread alone. */
  predicate TapOnly(steps: seq<Step>) {
    forall i :: 0 <= i < |steps| ==> !IsFwd(steps[i]) && !IsNic(steps[i])
  }

  function Served(p: nat, pid: nat): nat { if p < pid then 1 else 0 }

  /** Tap thread about to serve `pid`, having served each port for `r` rounds, and nothing forwarded: each time it has
      taken an mbuf, and put it in the ring while there was room. */
  predicate Filled(c: Config, s: State, r: nat, pid: nat) {
    && WellTyped(c, s) && s.tap == TapAtAlloc(pid) && s.fwd == AtCheck(0)
    && forall p :: 0 <= p < c.ports ==>
      && |s.ports[p].ring| == Min(r + Served(p, pid), c.slots)
      && |s.ports[p].free| + r + Served(p, pid) == c.pool
  }

  /** Allocating and reading an empty frame brings the tap thread to its enqueue. */
  lemma AllocAndRead(c: Config, s: State, r: nat, pid: nat) returns (steps: seq<Step>, t: State)
    requires Filled(c, s, r, pid) && r < c.pool
    ensures Run(c, s, steps) == Some(t) && WellTyped(c, t) && TapOnly(steps)
    ensures t.tap.TapAtEnqueue? && t.tap.pid == pid && t.fwd == s.fwd
    ensures forall p :: 0 <= p < c.ports && p != pid ==> t.ports[p] == s.ports[p]
    ensures t.ports[pid].ring == s.ports[pid].ring && |t.ports[pid].free| + 1 == |s.ports[pid].free|
  {
    assert |s.ports[pid].free| > 0;
    var m :| m in s.ports[pid].free;
    steps := [TapAlloc(m), TapRead([])];
    var s1 := Apply(c, s, TapAlloc(m));
    t := Apply(c, s1, TapRead([]));
    assert steps[1..] == [TapRead([])];
    assert Run(c, s1, steps[1..]) == Run(c, t, []);
  }

  lemma EnqueueNext(c: Config, s: State, t: State, r: nat, pid: nat)
    requires Filled(c, s, r, pid) && r < c.pool && WellTyped(c, t)
    requires t.tap.TapAtEnqueue? && t.tap.pid == pid && t.fwd == s.fwd
    requires forall p :: 0 <= p < c.ports && p != pid ==> t.ports[p] == s.ports[p]
    requires t.ports[pid].ring == s.ports[pid].ring && |t.ports[pid].free| + 1 == |s.ports[pid].free|
    ensures var u := Apply(c, t, TapEnqueue);
      if pid + 1 == c.ports then Filled(c, u, r + 1, 0) else Filled(c, u, r, pid + 1)
  {
    hide Apply;
    TapApplied(c, t, TapEnqueue);
    assert |Enqueue(c, t.ports[pid].ring, t.tap.m)| == Min(r + 1, c.slots);
  }

  lemma NothingYet(c: Config)
    requires c.ports > 0
    ensures Run(c, Init(c), []) == Some(Init(c)) && Filled(c, Init(c), 0, 0)
  {
  }

  lemma FilledTyped(c: Config, s: State, r: nat, pid: nat)
    requires Filled(c, s, r, pid)
    ensures WellTyped(c, s)
  {
  }

  /** The tap thread alone, round after round, until the pools are empty. */
  lemma Fill(c: Config, r: nat, pid: nat) returns (steps: seq<Step>, s: State)
    requires pid < c.ports && r <= c.pool && (r == c.pool ==> pid == 0)
    ensures Run(c, Init(c), steps) == Some(s) && Filled(c, s, r, pid) && TapOnly(steps)
    decreases r, pid
  {
    hide Run, Filled, Apply, Init;
    if r == 0 && pid == 0 {
      steps, s := [], Init(c);
      NothingYet(c);
    } else {
      var r0, pid0 := if pid == 0 then r - 1 else r, if pid == 0 then c.ports - 1 else pid - 1;
      var before, s0 := Fill(c, r0, pid0);
      FilledTyped(c, s0, r0, pid0);
      var two, s1 := AllocAndRead(c, s0, r0, pid0);
      s := Apply(c, s1, TapEnqueue);
      EnqueueNext(c, s0, s1, r0, pid0);
      steps := before + two + [TapEnqueue];
      FollowRun(c, Init(c), before, s0, two, s1, TapEnqueue);
    }
  }

  lemma FollowRun(c: Config, s0: State, a: seq<Step>, s: State, b: seq<Step>, t: State, step: Step)
    requires Run(c, s0, a) == Some(s) && Run(c, s, b) == Some(t) && WellTyped(c, t) && Enabled(c, t, step)
    ensures Run(c, s0, a + b + [step]) == Some(Apply(c, t, step))
  {
    RunAppend(c, s0, a, s, b);
    RunAppend(c, s0, a + b, t, [step]);
    assert Run(c, t, [step]) == Run(c, Apply(c, t, step), []);
  }

  /** If the pool does not fit the ring, the tap thread alone can fill the ring and hold one more. */
  lemma FailingRun(c: Config) returns (steps: seq<Step>, t: State)
    requires c.ports > 0 && c.pool > c.slots
    ensures Run(c, Init(c), steps) == Some(t) && WellTyped(c, t) && EnqueueFails(c, t)
  {
    var before, s := Fill(c, c.slots, 0);
    var two;
    two, t := AllocAndRead(c, s, c.slots, 0);
    RunAppend(c, Init(c), before, s, two);
    steps := before + two;
  }

  /** The ignored result of the enqueue never reports a failure, in any run, exactly when the ring can
      hold the whole pool. */
  lemma EnqueueNeverFailsIff(c: Config)
    requires c.ports > 0
    ensures c.pool <= c.slots <==> forall s | Reachable(c, s) :: !EnqueueFails(c, s)
  {
    if c.pool <= c.slots {
      forall s | Reachable(c, s) ensures !EnqueueFails(c, s) {
        ReachableInv(c, s);
        if EnqueueFails(c, s) {
          assert PortInv(c, s.ports[s.tap.pid], s.tap, s.fwd, s.tap.pid);
          RoomForHand(c, s.ports[s.tap.pid], s.tap, s.fwd, s.tap.pid);
        }
      }
    } else {
      var steps, t := FailingRun(c);
      assert Reachable(c, t) && EnqueueFails(c, t);
    }
  }

  /** A failed enqueue loses the mbuf: it is then in no place. */
  lemma LostOnFullRing(c: Config, s: State)
    requires Safe(c, s) && EnqueueFails(c, s)
    ensures var t := Apply(c, s, TapEnqueue);
      && Places(t.ports[s.tap.pid], t.tap, t.fwd, s.tap.pid, s.tap.m) == 0
      && s.tap.m < c.pool && !Inv(c, t)
  {
    var pid, m, t := s.tap.pid, s.tap.m, Apply(c, s, TapEnqueue);
    assert PortSafe(c, s.ports[pid], s.tap, s.fwd, pid);
    assert Places(s.ports[pid], s.tap, s.fwd, pid, m) == 1;
    TapPlaces(c, s.ports[pid], s.tap, s.fwd, TapEnqueue, m);
    assert !Partition(c, t.ports[pid], t.tap, t.fwd, pid);
  }

  /** Ownership and order are kept in every reachable state exactly when the ring can hold the whole pool. */
  lemma NothingLostIff(c: Config)
    requires c.ports > 0
    ensures c.pool <= c.slots <==> forall s | Reachable(c, s) :: Inv(c, s)
  {
    if c.pool <= c.slots {
      forall s | Reachable(c, s) ensures Inv(c, s) {
        ReachableInv(c, s);
      }
    } else {
      var steps, t := FailingRun(c);
      assert Reachable(c, t);
      ReachableSafe(c, t);
      var u := Apply(c, t, TapEnqueue);
      LostOnFullRing(c, t);
      RunAppend(c, Init(c), steps, t, [TapEnqueue]);
      assert Run(c, t, [TapEnqueue]) == Run(c, u, []);
      assert Reachable(c, u);
    }
  }

  /** The sizes in `port_alloc`: a ring of 8192 entries holds one less. */
  function YakConfig(ports: nat): Config {
    var numMbufs, ringSize := 8191, 8192;
    Config(ports, numMbufs, ringSize - 1)
  }

  /** With yak's own sizes and any number of ports the ring always has room. */
  lemma YakEnqueueNeverFails(ports: nat)
    requires ports > 0
    ensures forall s | Reachable(YakConfig(ports), s) :: !EnqueueFails(YakConfig(ports), s)
  {
    EnqueueNeverFailsIff(YakConfig(ports));
  }

  /** The ring of `port_alloc` is tight: with a pool of any other size it never fails exactly up to 8191 mbufs. */
  lemma YakRingIsTight(ports: nat, pool: nat)
    requires ports > 0
    ensures var c := YakConfig(ports).(pool := pool);
      pool <= 8191 <==> forall s | Reachable(c, s) :: !EnqueueFails(c, s)
  {
    EnqueueNeverFailsIff(YakConfig(ports).(pool := pool));
  }

  predicate PoolEmptyAtAlloc(c: Config, s: State) {
    WellTyped(c, s) && s.tap.TapAtAlloc? && s.ports[s.tap.pid].free == multiset{}
  }

  /** The allocation, unlike the enqueue, can always fail: whatever the sizes, the tap thread alone, with no step of a
      card or of the forwarding thread, brings itself to an empty pool. */
  lemma AllocationCanFail(c: Config)
    requires c.ports > 0
    ensures exists steps, s :: TapOnly(steps) && Run(c, Init(c), steps) == Some(s) && PoolEmptyAtAlloc(c, s)
  {
    hide Run;
    var steps, s := Fill(c, c.pool, 0);
    assert |s.ports[0].free| == 0;
    assert TapOnly(steps) && Run(c, Init(c), steps) == Some(s) && PoolEmptyAtAlloc(c, s);
  }

  // ---------------------------------------------------------- both directions

  /**
   Host to card: the frames handed to the card are a prefix of the frames read from
   the tap, and the rest is still on its way; a frame is dropped only if the card refused it.
  */
  lemma HostFramesKeepOrder(c: Config, s: State, pid: nat)
    requires c.ports > 0 && c.pool <= c.slots && Reachable(c, s) && pid < c.ports
    ensures |s.ports| == c.ports && HostToNic(s.ports[pid], s.tap, s.fwd, pid)
    ensures SentFrames(s.ports[pid].sent) <= s.ports[pid].tapIn
    ensures |s.ports[pid].tapIn| == |s.ports[pid].sent| + |TxPending(s.fwd, pid)| + |s.ports[pid].ring|
                                    + if s.tap.TapAtEnqueue? && s.tap.pid == pid then 1 else 0
  {
    ReachableInv(c, s);
    assert PortInv(c, s.ports[pid], s.tap, s.fwd, pid);
  }

  /** Card to host: what the tap received is the selection by ether type of the frames handled, which are a
      prefix of the frames received; every handled frame was freed once, or is the one about to be freed. */
  lemma WireFramesKeepOrder(c: Config, s: State, pid: nat)
    requires c.ports > 0 && Reachable(c, s) && pid < c.ports
    ensures |s.ports| == c.ports && NicToHost(s.ports[pid], s.fwd, pid)
    ensures s.ports[pid].handled <= s.ports[pid].wireIn
    ensures HostFrames(s.ports[pid].wireIn[..|s.ports[pid].handled|]) == s.ports[pid].tapOut
  {
    ReachableSafe(c, s);
    assert PortSafe(c, s.ports[pid], s.tap, s.fwd, pid);
    assert s.ports[pid].wireIn[..|s.ports[pid].handled|] == s.ports[pid].handled;
  }

  /** The frames for the host by their bytes: the type field, in network order, is that of IPv6, IPv4, ARP or 802.1Q. */
  predicate TypedForHost(f: Frame) {
    |f| >= 14 && f[12..14] in {[0x86, 0xdd], [0x08, 0x00], [0x08, 0x06], [0x81, 0x00]}
  }

  lemma ForHostIff(f: Frame)
    ensures ForHost(f)
       <==> |f| >= 14 && (f[12..14] == [0x86, 0xdd] || f[12..14] == [0x08, 0x00]
                          || f[12..14] == [0x08, 0x06] || f[12..14] == [0x81, 0x00])
  {
    if |f| >= 14 {
      TypeOfBytes(f, 0x86, 0xdd);
      TypeOfBytes(f, 0x08, 0x00);
      TypeOfBytes(f, 0x08, 0x06);
      TypeOfBytes(f, 0x81, 0x00);
    }
  }

  lemma TypeOfBytes(f: Frame, high: Byte, low: Byte)
    requires |f| >= 14
    ensures EtherType(f) == 256 * (high as int) + low <==> f[12..14] == [high, low]
  {
    assert f[12..14] == [f[12], f[13]];
    var a: int, b: int, h: int, l: int := f[12], f[13], high, low;
    assert 256 * a + b == 256 * h + l <==> a == h && b == l;
  }

  /** The order-preserving selection of the frames with those types. */
  function Selected(fs: seq<Frame>): seq<Frame> {
    if fs == [] then [] else (if TypedForHost(fs[0]) then [fs[0]] else []) + Selected(fs[1..])
  }

  lemma {:induction false} SelectedAppend(fs: seq<Frame>, x: Frame)
    ensures Selected(fs + [x]) == Selected(fs) + if TypedForHost(x) then [x] else []
    decreases |fs|
  {
    hide TypedForHost;
    if fs == [] {
      assert fs + [x] == [x] && [x][1..] == [];
    } else {
      assert (fs + [x])[1..] == fs[1..] + [x];
      SelectedAppend(fs[1..], x);
    }
  }

  lemma {:induction false} HostFramesAreSelected(fs: seq<Frame>)
    ensures HostFrames(fs) == Selected(fs)
    decreases |fs|
  {
    hide ForHost, TypedForHost;
    if fs == [] {
    } else {
      var front, x := fs[..|fs| - 1], fs[|fs| - 1];
      assert fs == front + [x];
      HostFramesAreSelected(front);
      SelectedAppend(front, x);
      SameSelection(x);
    }
  }

  lemma SameSelection(f: Frame)
    ensures ForHost(f) <==> TypedForHost(f)
  {
    ForHostIff(f);
  }

  /** In every reachable state the tap has received exactly the frames of those types among the received frames handled
      so far, in their order. */
  lemma WireFramesByType(c: Config, s: State, pid: nat)
    requires c.ports > 0 && Reachable(c, s) && pid < c.ports
    ensures |s.ports| == c.ports && |s.ports[pid].handled| <= |s.ports[pid].wireIn|
    ensures s.ports[pid].tapOut == Selected(s.ports[pid].wireIn[..|s.ports[pid].handled|])
  {
    WireFramesKeepOrder(c, s, pid);
    HostFramesAreSelected(s.ports[pid].wireIn[..|s.ports[pid].handled|]);
  }

  // -------------------------------------------------------------- drain bound

  function Dequeued(s: State, pid: nat): nat
    requires pid < |s.ports|
  {
    |s.ports[pid].sent| + |TxPending(s.fwd, pid)|
  }

  /** Visits to the port that have already looked at the ring. */
  function Past(s: State, pid: nat): int
    requires pid < |s.ports|
  {
    s.ports[pid].visits - if s.fwd == AtDequeue(pid) then 1 else 0
  }

  /** What a stretch of a run owes to the frames queued at its start. */
  predicate Drains(s: State, t: State, pid: nat)
    requires pid < |s.ports| && pid < |t.ports|
  {
    && s.ports[pid].tapIn <= t.ports[pid].tapIn
    && Past(s, pid) <= Past(t, pid)
    && Dequeued(s, pid) + |s.ports[pid].ring| <= Dequeued(t, pid) + |t.ports[pid].ring|
    && (Dequeued(t, pid) >= Dequeued(s, pid) + BURST_SIZE * (Past(t, pid) - Past(s, pid))
        || Dequeued(t, pid) >= Dequeued(s, pid) + |s.ports[pid].ring|)
  }

  lemma CheckDrains(c: Config, s: State, pid: nat)
    requires WellTyped(c, s) && Enabled(c, s, FwdCheck) && pid < c.ports
    ensures Drains(s, Apply(c, s, FwdCheck), pid)
  {
  }

  lemma DequeueDrains(c: Config, s: State, pid: nat)
    requires WellTyped(c, s) && Enabled(c, s, FwdDequeue) && pid < c.ports
    ensures Drains(s, Apply(c, s, FwdDequeue), pid)
  {
    if pid == s.fwd.pid {
      var burst := s.ports[pid].ring[..Min(BURST_SIZE, |s.ports[pid].ring|)];
      assert TxPending(AfterTx(pid, burst, 0), pid) == burst;
    }
  }

  lemma TxDrains(c: Config, s: State, step: Step, pid: nat)
    requires WellTyped(c, s) && Enabled(c, s, step) && (step.FwdTx? || step.FwdTxFree?) && pid < c.ports
    ensures Drains(s, Apply(c, s, step), pid)
  {
    var t := Apply(c, s, step);
    assert pid == s.fwd.pid ==>
      |TxPending(s.fwd, pid)| == |TxPending(t.fwd, pid)| + if step.FwdTx? then 1 else 0;
  }

  /** A step that leaves a port's queues and log, and what of its burst is pending, owes nothing. */
  lemma SameDrains(s: State, t: State, pid: nat)
    requires pid < |s.ports| && pid < |t.ports| && s.ports[pid].tapIn <= t.ports[pid].tapIn
    requires s.ports[pid].visits == t.ports[pid].visits && s.ports[pid].sent == t.ports[pid].sent
    requires |s.ports[pid].ring| <= |t.ports[pid].ring|
    requires TxPending(t.fwd, pid) == TxPending(s.fwd, pid) && (t.fwd == AtDequeue(pid) <==> s.fwd == AtDequeue(pid))
    ensures Drains(s, t, pid)
  {
  }

  lemma InputDrains(c: Config, s: State, step: Step, pid: nat)
    requires WellTyped(c, s) && Enabled(c, s, step) && pid < c.ports && (step.FwdRx? || step.FwdInput? || step.FwdInputFree?)
    ensures Drains(s, Apply(c, s, step), pid)
  {
    hide Drains;
    SameDrains(s, Apply(c, s, step), pid);
  }

  lemma TapDrains(c: Config, s: State, step: Step, pid: nat)
    requires WellTyped(c, s) && Enabled(c, s, step) && pid < c.ports && !IsFwd(step) && !IsNic(step)
    ensures Drains(s, Apply(c, s, step), pid)
  {
    hide Drains, Apply;
    TapApplied(c, s, step);
    SameDrains(s, Apply(c, s, step), pid);
  }

  lemma NicDrains(c: Config, s: State, step: Step, pid: nat)
    requires WellTyped(c, s) && Enabled(c, s, step) && pid < c.ports && IsNic(step)
    ensures Drains(s, Apply(c, s, step), pid)
  {
    hide Drains, Apply;
    NicApplied(c, s, step);
    SameDrains(s, Apply(c, s, step), pid);
  }

  lemma DrainStep(c: Config, s: State, step: Step, pid: nat)
    requires WellTyped(c, s) && Enabled(c, s, step) && pid < c.ports
    ensures Drains(s, Apply(c, s, step), pid)
  {
    hide Drains, Apply, Enabled;
    if step.FwdCheck? {
      CheckDrains(c, s, pid);
    } else if step.FwdDequeue? {
      DequeueDrains(c, s, pid);
    } else if step.FwdTx? || step.FwdTxFree? {
      TxDrains(c, s, step, pid);
    } else if IsFwd(step) {
      InputDrains(c, s, step, pid);
    } else if IsNic(step) {
      NicDrains(c, s, step, pid);
    } else {
      TapDrains(c, s, step, pid);
    }
  }

  lemma {:induction false} DrainRun(c: Config, s: State, steps: seq<Step>, t: State, pid: nat)
    requires WellTyped(c, s) && pid < c.ports
    requires Run(c, s, steps) == Some(t)
    ensures |t.ports| == c.ports && Drains(s, t, pid)
    decreases |steps|
  {
    if steps == [] {
    } else {
      var s1 := Apply(c, s, steps[0]);
      DrainStep(c, s, steps[0], pid);
      if steps[1..] != [] {
        DrainRun(c, s1, steps[1..], t, pid);
      }
    }
  }

  lemma EnoughVisits(s: State, t: State, pid: nat, ahead: nat)
    requires pid < |s.ports| && pid < |t.ports| && ahead < |s.ports[pid].ring| && Drains(s, t, pid)
    requires Past(t, pid) - Past(s, pid) >= ahead / BURST_SIZE + 1
    ensures Dequeued(t, pid) > Dequeued(s, pid) + ahead
  {
    assert BURST_SIZE * (ahead / BURST_SIZE + 1) > ahead;
  }

  /**
   A frame with `ahead` frames before it in the ring has been handed to the card once
   the forwarding thread has finished the transmit part of ahead/32 + 1 further visits to the
   port, whatever else happens in between; it is then in the sent log at its place in the reading order.
  */
  lemma DrainBound(c: Config, s: State, steps: seq<Step>, t: State, pid: nat, ahead: nat)
    requires c.ports > 0 && c.pool <= c.slots && Reachable(c, s) && pid < c.ports
    requires |s.ports| == c.ports && ahead < |s.ports[pid].ring|
    requires Run(c, s, steps) == Some(t)
    requires |t.ports| == c.ports && t.fwd != AtDequeue(pid) && TxPending(t.fwd, pid) == []
    requires t.ports[pid].visits >= s.ports[pid].visits + ahead / 32 + 1
    ensures var k := Dequeued(s, pid) + ahead;
      && k < |t.ports[pid].sent|
      && t.ports[pid].sent[k].frame == Content(s.ports[pid].store, s.ports[pid].ring[ahead])
  {
    hide Run, HostToNic, NicToHost, Partition;
    ReachableInv(c, s);
    RunKeeps(c, s, steps, t);
    var k := Dequeued(s, pid) + ahead;
    assert k < |t.ports[pid].sent| && s.ports[pid].tapIn <= t.ports[pid].tapIn by {
      DrainRun(c, s, steps, t, pid);
      EnoughVisits(s, t, pid, ahead);
    }
    ReadAs(s.ports[pid], s.tap, s.fwd, pid, ahead);
    assert HostToNic(t.ports[pid], t.tap, t.fwd, pid);
    SentAs(t.ports[pid], t.tap, t.fwd, pid, k);
  }

  /** The queued frames stand in the reading order after the frames already dequeued. */
  lemma ReadAs(p: Port, tap: TapThread, fwd: FwdThread, pid: nat, i: nat)
    requires HostToNic(p, tap, fwd, pid) && i < |p.ring|
    ensures var k := |p.sent| + |TxPending(fwd, pid)| + i;
      k < |p.tapIn| && p.tapIn[k] == Content(p.store, p.ring[i])
  {
    assert p.tapIn[|p.sent| + |TxPending(fwd, pid)| + i] == Frames(p.store, p.ring)[i];
  }

  lemma SentAs(p: Port, tap: TapThread, fwd: FwdThread, pid: nat, k: nat)
    requires HostToNic(p, tap, fwd, pid) && k < |p.sent|
    ensures k < |p.tapIn| && p.tapIn[k] == p.sent[k].frame
  {
    assert p.tapIn[k] == SentFrames(p.sent)[k];
  }

  // ------------------------------------------------------ round-robin balance

  predicate Balanced(c: Config, s: State, r: nat) {
    && WellTyped(c, s)
    && forall p :: 0 <= p < c.ports ==>
      |s.ports[p].tapIn| == r + if p < s.tap.pid || (p == s.tap.pid && s.tap.TapAtEnqueue?) then 1 else 0
  }

  lemma BalanceStep(c: Config, s: State, step: Step, r: nat) returns (r': nat)
    requires Balanced(c, s, r) && Enabled(c, s, step)
    ensures Balanced(c, Apply(c, s, step), r')
  {
    r' := r;
    match step
    case TapRead(_) =>
    case TapEnqueue => if s.tap.pid + 1 == c.ports { r' := r + 1; }
    case _ => OthersDoNotRead(c, s, step);
  }

  lemma OthersDoNotRead(c: Config, s: State, step: Step)
    requires WellTyped(c, s) && Enabled(c, s, step) && !step.TapRead? && !step.TapEnqueue?
    ensures var t := Apply(c, s, step);
      && WellTyped(c, t) && t.tap.pid == s.tap.pid && (t.tap.TapAtEnqueue? <==> s.tap.TapAtEnqueue?)
      && forall p :: 0 <= p < c.ports ==> t.ports[p].tapIn == s.ports[p].tapIn
  {
    hide Apply;
    if IsNic(step) {
      NicApplied(c, s, step);
    } else if IsFwd(step) {
      hide FwdNext;
      FwdApplied(c, s, step);
      FwdWellTyped(c, s, step);
    } else {
      TapApplied(c, s, step);
    }
  }

  lemma {:induction false} BalanceRun(c: Config, s: State, steps: seq<Step>, t: State, r: nat) returns (r': nat)
    requires Balanced(c, s, r) && Run(c, s, steps) == Some(t)
    ensures Balanced(c, t, r')
    decreases |steps|
  {
    r' := r;
    if steps == [] {
    } else {
      r' := BalanceStep(c, s, steps[0], r);
      r' := BalanceRun(c, Apply(c, s, steps[0]), steps[1..], t, r');
    }
  }

  /** No port is read more than one frame ahead of a later one, and never behind it. */
  lemma RoundRobin(c: Config, s: State, i: nat, j: nat)
    requires c.ports > 0 && Reachable(c, s) && i < j < c.ports
    ensures |s.ports| == c.ports
    ensures 0 <= |s.ports[i].tapIn| - |s.ports[j].tapIn| <= 1
  {
    var steps :| Run(c, Init(c), steps) == Some(s);
    var r := BalanceRun(c, Init(c), steps, s, 0);
  }
}
