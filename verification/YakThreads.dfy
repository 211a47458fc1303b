/**
 The bodies of yak's two endless loops as the program writes them: one visit of
 each thread to one port, with the other thread and the cards moving in between. A visit is tied to the
 transition system: it is a run in which this thread's own steps are exactly those of one visit.
*/
module YakThreads {
  import opened Bytes
  import opened Sequences
  import opened Forwarder
  import opened ForwarderSafety
  import opened ForwarderRuns

  datatype Who = Tap | Fwd

  predicate Mine(who: Who, step: Step) {
    match who
    case Fwd => IsFwd(step)
    case Tap => !IsFwd(step) && !IsNic(step)
  }

  /** A thread's own steps of a schedule, in order. */
  function Own(who: Who, steps: seq<Step>): seq<Step> {
    if steps == [] then []
    else Own(who, steps[..|steps| - 1]) + if Mine(who, steps[|steps| - 1]) then [steps[|steps| - 1]] else []
  }

  lemma OwnAppend(who: Who, steps: seq<Step>, step: Step)
    ensures Own(who, steps + [step]) == Own(who, steps) + if Mine(who, step) then [step] else []
  {
    assert (steps + [step])[..|steps|] == steps;
  }

  /** A transmit burst of `n`: each frame is handed to the card, and freed if the card refuses it. */
  function TxSteps(accepts: nat -> bool, n: nat): seq<Step> {
    if n == 0 then []
    else TxSteps(accepts, n - 1) + TxFrame(accepts(n - 1))
  }

  function TxFrame(accepted: bool): seq<Step> {
    [FwdTx(accepted)] + if accepted then [] else [FwdTxFree]
  }

  /** A received burst of `n`: each frame is handled and freed. */
  function RxSteps(n: nat): seq<Step> {
    if n == 0 then [] else RxSteps(n - 1) + [FwdInput, FwdInputFree]
  }

  /** A forwarding visit: the check; if it found the ring filled, a dequeue and the burst; a receive and the burst. */
  function VisitSteps(filled: bool, ndeq: nat, accepts: nat -> bool, nbRx: nat): seq<Step> {
    [FwdCheck] + (if filled then [FwdDequeue] + TxSteps(accepts, ndeq) else []) + [FwdRx(nbRx)] + RxSteps(nbRx)
  }

  // ------------------------------------------------------------------- steps

  lemma StepTyped(c: Config, s: State, step: Step)
    requires WellTyped(c, s) && Enabled(c, s, step)
    ensures WellTyped(c, Apply(c, s, step))
  {
  }

  /** What only the forwarding thread writes. */
  predicate SameLog(p: Port, q: Port) {
    p.sent == q.sent && p.handled == q.handled && p.tapOut == q.tapOut && p.freed == q.freed && p.visits == q.visits
  }

  /** From one state to another, a thread stands where it stood, and what only it writes is as it was. */
  predicate Untouched(who: Who, s: State, t: State) {
    && |s.ports| == |t.ports|
    && (who == Fwd ==> t.fwd == s.fwd && forall q :: 0 <= q < |s.ports| ==> SameLog(t.ports[q], s.ports[q]))
    && (who == Tap ==> t.tap == s.tap && forall q :: 0 <= q < |s.ports| ==> t.ports[q].tapIn == s.ports[q].tapIn)
  }

  /** One port changes, in nothing that is the thread's own to write. */
  lemma OnePort(who: Who, s: State, t: State, pid: nat, p: Port)
    requires pid < |s.ports| && t.ports == s.ports[pid := p]
    requires if who == Fwd then t.fwd == s.fwd && SameLog(p, s.ports[pid])
             else t.tap == s.tap && p.tapIn == s.ports[pid].tapIn
    ensures Untouched(who, s, t)
  {
  }

  lemma NotMine(c: Config, s: State, step: Step, who: Who)
    requires WellTyped(c, s) && Enabled(c, s, step) && !Mine(who, step)
    ensures Untouched(who, s, Apply(c, s, step))
  {
    hide Untouched, Apply;
    if IsNic(step) {
      NicApplied(c, s, step);
      OnePort(who, s, Apply(c, s, step), step.pid, NicPort(s.ports[step.pid], step));
    } else if IsFwd(step) {
      FwdApplied(c, s, step);
      OnePort(who, s, Apply(c, s, step), s.fwd.pid, FwdPort(s.ports[s.fwd.pid], s.fwd, step));
    } else {
      TapApplied(c, s, step);
      OnePort(who, s, Apply(c, s, step), s.tap.pid, TapPort(c, s.ports[s.tap.pid], s.tap, step));
    }
  }

  /** Follows a run by one more step. */
  lemma Extend(c: Config, s: State, steps: seq<Step>, t: State, step: Step)
    requires Run(c, s, steps) == Some(t) && WellTyped(c, t) && Enabled(c, t, step)
    ensures Run(c, s, steps + [step]) == Some(Apply(c, t, step)) && WellTyped(c, Apply(c, t, step))
  {
    StepTyped(c, t, step);
    RunAppend(c, s, steps, t, [step]);
    assert Run(c, t, [step]) == Run(c, Apply(c, t, step), []);
  }

  /** The array `port[]`, with the pools, rings and cards behind it, and where the two threads stand. */
  class Yak {
    const c: Config
    var ports: seq<Port>
    var tap: TapThread
    var fwd: FwdThread

    constructor (c: Config)
      requires c.ports > 0
      ensures this.c == c && Now() == Init(c)
    {
      this.c := c;
      ports := seq(c.ports, _ => InitPort(c));
      tap, fwd := TapAtAlloc(0), AtCheck(0);
    }

    function Now(): State
      reads this
    {
      State(ports, tap, fwd)
    }

    /** The schedule so far has led from `s0` to where we are. */
    ghost predicate Ran(s0: State, steps: seq<Step>)
      reads this
    {
      WellTyped(c, Now()) && Run(c, s0, steps) == Some(Now())
    }

    /** While thread `who` stands still, the other thread and the cards take those of the given steps they can. */
    method Others(who: Who, env: seq<Step>, ghost s0: State, ghost before: seq<Step>) returns (ghost steps: seq<Step>)
      requires Ran(s0, before)
      modifies this
      ensures Ran(s0, steps) && Own(who, steps) == Own(who, before)
      ensures Untouched(who, old(Now()), Now())
    {
      hide Run, Own;
      steps := before;
      for i := 0 to |env|
        invariant Ran(s0, steps) && Own(who, steps) == Own(who, before)
        invariant Untouched(who, old(Now()), Now())
      {
        if !Mine(who, env[i]) && Enabled(c, Now(), env[i]) {
          Extend(c, s0, steps, Now(), env[i]);
          NotMine(c, Now(), env[i], who);
          OwnAppend(who, steps, env[i]);
          var t := Apply(c, Now(), env[i]);
          ports, tap, fwd := t.ports, t.tap, t.fwd;
          steps := steps + [env[i]];
        }
      }
    }

    method PktmbufFree(pid: nat, m: Id)
      requires pid < |ports|
      modifies this`ports
      ensures ports == old(ports)[pid := old(ports[pid]).(free := old(ports[pid]).free + multiset{m})]
    {
      ports := ports[pid := ports[pid].(free := ports[pid].free + multiset{m})];
    }

    // ---------------------------------------------------------- the tap thread

    /** Allocates an mbuf and reads one frame into it. With an empty pool there is none, and the program uses
        a null pointer: `None`. */
    method TapRecv(pid: nat, frame: Frame, env: TapThread -> seq<Step>, ghost s0: State, ghost before: seq<Step>)
      returns (m: Option<Id>, ghost steps: seq<Step>)
      requires Ran(s0, before) && tap == TapAtAlloc(pid)
      modifies this
      ensures m.None? <==> old(ports[pid].free) == multiset{}
      ensures m.None? ==> Now() == old(Now()) && steps == before
      ensures m.Some? ==> Ran(s0, steps) && m.value in old(ports[pid].free) && tap == TapAtEnqueue(pid, m.value)
      ensures m.Some? ==> Own(Tap, steps) == Own(Tap, before) + [TapAlloc(m.value)] + [TapRead(frame)]
      ensures m.Some? ==> pid < |ports| && ports[pid].tapIn == old(ports[pid].tapIn) + [frame]
      ensures m.Some? ==> pid < |ports| && Content(ports[pid].store, m.value) == frame
    {
      hide Run, Own;
      if ports[pid].free == multiset{} { return None, before; }
      var id :| id in ports[pid].free;
      m := Some(id);
      Extend(c, s0, before, Now(), TapAlloc(id));
      OwnAppend(Tap, before, TapAlloc(id));
      ports, tap := ports[pid := ports[pid].(free := ports[pid].free - multiset{id})], TapAtRead(pid, id);
      steps := Others(Tap, env(tap), s0, before + [TapAlloc(id)]);
      Extend(c, s0, steps, Now(), TapRead(frame));
      OwnAppend(Tap, steps, TapRead(frame));
      var p := ports[pid];
      ports := ports[pid := p.(store := p.store[id := frame], tapIn := p.tapIn + [frame])];
      tap := TapAtEnqueue(pid, id);
      steps := steps + [TapRead(frame)];
    }

    /** The inner loop body of `tap_main`: `env` is what the others do while the thread stands at each place. The
        visit is completed unless the pool was empty when the allocation came. */
    method TapVisit(pid: nat, frame: Frame, env: TapThread -> seq<Step>)
      returns (m: Option<Id>, ghost steps: seq<Step>)
      requires WellTyped(c, Now()) && tap == TapAtAlloc(pid)
      modifies this
      ensures Ran(old(Now()), steps)
      ensures m.None? ==> tap == TapAtAlloc(pid) && ports[pid].free == multiset{} && Own(Tap, steps) == []
      ensures m.Some? ==> tap == TapAtAlloc(NextPid(c, pid))
      ensures m.Some? ==> Own(Tap, steps) == [TapAlloc(m.value), TapRead(frame), TapEnqueue]
    {
      ghost var s0 := Now();
      assert Ran(s0, []) && Own(Tap, []) == [];
      hide Run, Own;
      steps := Others(Tap, env(tap), s0, []);
      m, steps := TapRecv(pid, frame, env, s0, steps);
      if m.Some? {
        steps := Others(Tap, env(tap), s0, steps);
        steps := RingEnqueue(pid, m.value, s0, steps);
      }
    }

    /** Puts the mbuf in the ring if there is room. The result is not looked at. */
    method RingEnqueue(pid: nat, m: Id, ghost s0: State, ghost before: seq<Step>) returns (ghost steps: seq<Step>)
      requires Ran(s0, before) && tap == TapAtEnqueue(pid, m)
      modifies this
      ensures Ran(s0, steps) && tap == TapAtAlloc(NextPid(c, pid))
      ensures Own(Tap, steps) == Own(Tap, before) + [TapEnqueue]
      ensures ports[pid].ring == old(ports[pid].ring) + if |old(ports[pid].ring)| < c.slots then [m] else []
    {
      hide Run, Own;
      Extend(c, s0, before, Now(), TapEnqueue);
      OwnAppend(Tap, before, TapEnqueue);
      ports := ports[pid := ports[pid].(ring := Enqueue(c, ports[pid].ring, m))];
      tap := TapAtAlloc(NextPid(c, pid));
      steps := before + [TapEnqueue];
    }

    // --------------------------------------------------- the forwarding thread

    /** Gives the mbuf of a refused frame back. */
    method TxFree(pid: nat, mbufs: seq<Id>, i: nat, ghost s0: State, ghost before: seq<Step>)
      returns (ghost steps: seq<Step>)
      requires Ran(s0, before) && fwd == AtTxFree(pid, mbufs, i)
      modifies this
      ensures Ran(s0, steps) && fwd == AfterTx(pid, mbufs, i + 1)
      ensures Own(Fwd, steps) == Own(Fwd, before) + [FwdTxFree]
      ensures ports[pid].sent == old(ports[pid].sent)
      ensures ports[pid].free == old(ports[pid].free) + multiset{mbufs[i]}
    {
      hide Run, Own;
      Extend(c, s0, before, Now(), FwdTxFree);
      OwnAppend(Fwd, before, FwdTxFree);
      PktmbufFree(pid, mbufs[i]);
      fwd := AfterTx(pid, mbufs, i + 1);
      steps := before + [FwdTxFree];
    }

    /** One frame of a transmit burst: handed to the card, freed if the card refuses it. */
    method TxOne(pid: nat, mbufs: seq<Id>, i: nat, accepted: bool, env: FwdThread -> seq<Step>,
                 ghost s0: State, ghost before: seq<Step>) returns (ghost steps: seq<Step>)
      requires Ran(s0, before) && fwd == AtTx(pid, mbufs, i)
      modifies this
      ensures Ran(s0, steps) && fwd == AfterTx(pid, mbufs, i + 1)
      ensures Own(Fwd, steps) == Own(Fwd, before) + TxFrame(accepted)
      ensures ports[pid].sent == old(ports[pid].sent) + [Sent(Content(old(ports[pid].store), mbufs[i]), accepted)]
    {
      hide Run, Own;
      var ntx := if accepted then 1 else 0;
      Extend(c, s0, before, Now(), FwdTx(accepted));
      OwnAppend(Fwd, before, FwdTx(accepted));
      var p := ports[pid];
      ports := ports[pid := p.(sent := p.sent + [Sent(Content(p.store, mbufs[i]), accepted)],
                               sending := if accepted then p.sending + multiset{mbufs[i]} else p.sending)];
      fwd := if accepted then AfterTx(pid, mbufs, i + 1) else AtTxFree(pid, mbufs, i);
      steps := before + [FwdTx(accepted)];
      if ntx != 1 {
        steps := Others(Fwd, env(fwd), s0, steps);
        steps := TxFree(pid, mbufs, i, s0, steps);
      }
    }

    /** The loop over a transmit burst; `accepts(i)` is the card's answer to the i-th frame. */
    method TxLoop(pid: nat, mbufs: seq<Id>, accepts: nat -> bool, env: FwdThread -> seq<Step>,
                  ghost s0: State, ghost before: seq<Step>) returns (ghost steps: seq<Step>)
      requires Ran(s0, before) && fwd == AfterTx(pid, mbufs, 0)
      modifies this
      ensures Ran(s0, steps) && fwd == AtRx(pid)
      ensures Own(Fwd, steps) == Own(Fwd, before) + TxSteps(accepts, |mbufs|)
    {
      hide Run, Own, TxFrame;
      steps := before;
      for i := 0 to |mbufs|
        invariant Ran(s0, steps) && fwd == AfterTx(pid, mbufs, i)
        invariant Own(Fwd, steps) == Own(Fwd, before) + TxSteps(accepts, i)
      {
        steps := Others(Fwd, env(fwd), s0, steps);
        steps := TxOne(pid, mbufs, i, accepts(i), env, s0, steps);
        Assoc(Own(Fwd, before), TxSteps(accepts, i), TxFrame(accepts(i)));
      }
    }

    /** Gives the mbuf of a handled frame back. */
    method InputFree(pid: nat, bufs: seq<Id>, i: nat, ghost s0: State, ghost before: seq<Step>)
      returns (ghost steps: seq<Step>)
      requires Ran(s0, before) && fwd == AtInputFree(pid, bufs, i)
      modifies this
      ensures Ran(s0, steps) && fwd == AfterInput(c, pid, bufs, i + 1)
      ensures Own(Fwd, steps) == Own(Fwd, before) + [FwdInputFree]
      ensures ports[pid].tapOut == old(ports[pid].tapOut) && ports[pid].handled == old(ports[pid].handled)
      ensures ports[pid].free == old(ports[pid].free) + multiset{bufs[i]}
    {
      hide Run, Own;
      ghost var next := Apply(c, Now(), FwdInputFree);
      Extend(c, s0, before, Now(), FwdInputFree);
      OwnAppend(Fwd, before, FwdInputFree);
      PktmbufFree(pid, bufs[i]);
      ports := ports[pid := ports[pid].(freed := ports[pid].freed + 1)];
      fwd := AfterInput(c, pid, bufs, i + 1);
      assert ports == next.ports;
      steps := before + [FwdInputFree];
    }

    /** Writes the frame to the host interface and gives the mbuf back. */
    method TapSend(pid: nat, bufs: seq<Id>, i: nat, env: FwdThread -> seq<Step>,
                   ghost s0: State, ghost before: seq<Step>) returns (ghost steps: seq<Step>)
      requires Ran(s0, before) && fwd == AtInput(pid, bufs, i) && ForHost(Content(ports[pid].store, bufs[i]))
      modifies this
      ensures Ran(s0, steps) && fwd == AfterInput(c, pid, bufs, i + 1)
      ensures Own(Fwd, steps) == Own(Fwd, before) + [FwdInput, FwdInputFree]
      ensures ports[pid].tapOut == old(ports[pid].tapOut) + [Content(old(ports[pid].store), bufs[i])]
      ensures ports[pid].handled == old(ports[pid].handled) + [Content(old(ports[pid].store), bufs[i])]
    {
      hide Run, Own;
      Extend(c, s0, before, Now(), FwdInput);
      OwnAppend(Fwd, before, FwdInput);
      var frame := Content(ports[pid].store, bufs[i]);
      ports := ports[pid := ports[pid].(handled := ports[pid].handled + [frame], tapOut := ports[pid].tapOut + [frame])];
      fwd := AtInputFree(pid, bufs, i);
      steps := Others(Fwd, env(fwd), s0, before + [FwdInput]);
      steps := InputFree(pid, bufs, i, s0, steps);
    }

    /** One received frame: to the host or not by its type, and its mbuf back to the pool either way. */
    method PortInput(pid: nat, bufs: seq<Id>, i: nat, env: FwdThread -> seq<Step>,
                     ghost s0: State, ghost before: seq<Step>) returns (ghost steps: seq<Step>)
      requires Ran(s0, before) && fwd == AtInput(pid, bufs, i)
      modifies this
      ensures Ran(s0, steps) && fwd == AfterInput(c, pid, bufs, i + 1)
      ensures Own(Fwd, steps) == Own(Fwd, before) + [FwdInput, FwdInputFree]
      ensures var frame := Content(old(ports[pid].store), bufs[i]);
        && ports[pid].handled == old(ports[pid].handled) + [frame]
        && ports[pid].tapOut == old(ports[pid].tapOut) + if ForHost(frame) then [frame] else []
    {
      hide Run, Own;
      var frame := Content(ports[pid].store, bufs[i]);
      if ForHost(frame) {
        steps := TapSend(pid, bufs, i, env, s0, before);
      } else {
        Extend(c, s0, before, Now(), FwdInput);
        OwnAppend(Fwd, before, FwdInput);
        ports := ports[pid := ports[pid].(handled := ports[pid].handled + [frame])];
        fwd := AtInputFree(pid, bufs, i);
        steps := Others(Fwd, env(fwd), s0, before + [FwdInput]);
        steps := InputFree(pid, bufs, i, s0, steps);
      }
    }

    /** The loop over a received burst. */
    method RxLoop(pid: nat, bufs: seq<Id>, env: FwdThread -> seq<Step>,
                  ghost s0: State, ghost before: seq<Step>) returns (ghost steps: seq<Step>)
      requires Ran(s0, before) && fwd == AfterInput(c, pid, bufs, 0)
      modifies this
      ensures Ran(s0, steps) && fwd == AtCheck(NextPid(c, pid))
      ensures Own(Fwd, steps) == Own(Fwd, before) + RxSteps(|bufs|)
    {
      hide Run, Own;
      steps := before;
      for i := 0 to |bufs|
        invariant Ran(s0, steps) && fwd == AfterInput(c, pid, bufs, i)
        invariant Own(Fwd, steps) == Own(Fwd, before) + RxSteps(i)
      {
        steps := Others(Fwd, env(fwd), s0, steps);
        steps := PortInput(pid, bufs, i, env, s0, steps);
        Assoc(Own(Fwd, before), RxSteps(i), [FwdInput, FwdInputFree]);
      }
    }

    /** First half of a visit: a burst from the ring to the card. */
    method FromHost(pid: nat, accepts: nat -> bool, env: FwdThread -> seq<Step>,
                    ghost s0: State, ghost before: seq<Step>)
      returns (filled: bool, ndeq: nat, ghost steps: seq<Step>)
      requires Ran(s0, before) && fwd == AtCheck(pid)
      modifies this
      ensures Ran(s0, steps) && fwd == AtRx(pid)
      ensures filled <==> old(ports[pid].ring) != []
      ensures ndeq <= 32
      ensures Own(Fwd, steps) == Own(Fwd, before) + [FwdCheck]
        + (if filled then [FwdDequeue] + TxSteps(accepts, ndeq) else [])
    {
      hide Run, Own, TxSteps;
      Extend(c, s0, before, Now(), FwdCheck);
      OwnAppend(Fwd, before, FwdCheck);
      filled, ndeq := ports[pid].ring != [], 0;
      ports := ports[pid := ports[pid].(visits := ports[pid].visits + 1)];
      fwd := if filled then AtDequeue(pid) else AtRx(pid);
      steps := before + [FwdCheck];
      if filled {
        steps := Others(Fwd, env(fwd), s0, steps);
        Extend(c, s0, steps, Now(), FwdDequeue);
        OwnAppend(Fwd, steps, FwdDequeue);
        ndeq := Min(BURST_SIZE, |ports[pid].ring|);
        var mbufs := ports[pid].ring[..ndeq];
        ports := ports[pid := ports[pid].(ring := ports[pid].ring[ndeq..])];
        fwd := AfterTx(pid, mbufs, 0);
        steps := TxLoop(pid, mbufs, accepts, env, s0, steps + [FwdDequeue]);
        Assoc(Own(Fwd, before) + [FwdCheck], [FwdDequeue], TxSteps(accepts, ndeq));
      }
    }

    /** Second half: a burst from the card, of `rx` frames if it has so many. */
    method FromWire(pid: nat, rx: nat, env: FwdThread -> seq<Step>, ghost s0: State, ghost before: seq<Step>)
      returns (nbRx: nat, ghost steps: seq<Step>)
      requires Ran(s0, before) && fwd == AtRx(pid)
      modifies this
      ensures Ran(s0, steps) && fwd == AtCheck(NextPid(c, pid))
      ensures nbRx == Min(rx, Min(32, |old(ports[pid].received)|))
      ensures Own(Fwd, steps) == Own(Fwd, before) + [FwdRx(nbRx)] + RxSteps(nbRx)
    {
      hide Run, Own;
      nbRx := Min(rx, Min(BURST_SIZE, |ports[pid].received|));
      Extend(c, s0, before, Now(), FwdRx(nbRx));
      OwnAppend(Fwd, before, FwdRx(nbRx));
      var bufs := ports[pid].received[..nbRx];
      ports := ports[pid := ports[pid].(received := ports[pid].received[nbRx..])];
      fwd := AfterInput(c, pid, bufs, 0);
      steps := before + [FwdRx(nbRx)];
      if nbRx != 0 {
        steps := RxLoop(pid, bufs, env, s0, steps);
      }
    }

    /** The inner loop body of `fwd_main`, for any answers of the card and any doings of the others while the thread
        stands at each place: a run whose own steps are exactly those of one visit. */
    method FwdVisit(pid: nat, accepts: nat -> bool, rx: nat, env: FwdThread -> seq<Step>)
      returns (filled: bool, ndeq: nat, nbRx: nat, ghost steps: seq<Step>)
      requires WellTyped(c, Now()) && fwd == AtCheck(pid)
      modifies this
      ensures Ran(old(Now()), steps) && fwd == AtCheck(NextPid(c, pid))
      ensures ndeq <= 32 && nbRx <= 32
      ensures Own(Fwd, steps) == VisitSteps(filled, ndeq, accepts, nbRx)
    {
      ghost var s0 := Now();
      assert Ran(s0, []) && Own(Fwd, []) == [];
      hide Run, Own, TxSteps, RxSteps;
      steps := Others(Fwd, env(fwd), s0, []);
      filled, ndeq, steps := FromHost(pid, accepts, env, s0, steps);
      steps := Others(Fwd, env(fwd), s0, steps);
      nbRx, steps := FromWire(pid, rx, env, s0, steps);
      assert [] + [FwdCheck] == [FwdCheck];
    }
  }
}
