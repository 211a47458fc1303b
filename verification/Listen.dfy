/**
 `netlink_listen`: from a run of receive outcomes to handler calls.

 The framing is that of RFC 3549, sections 2.2 and 2.3.2: a datagram holds messages, each
 with its length in its first word, each padded to a multiple of four.
*/
module Listen {
  import opened Bytes
  import opened Words
  import opened Sequences
  import opened Rtattr

  type Msg = seq<Byte>

  /** The handler's answer, given all the messages it has been called with so far. */
  type Handler = seq<Msg> -> int

  const BUFFER: nat := 16384
  const NLMSG_HDR: nat := 16

  datatype Errno = EINTR | EAGAIN | ENOBUFS | Other(code: int)

  /** What `recvmsg` reports: an error, or a datagram and whether it was cut. An empty datagram is
      the end of the stream. */
  datatype Received = Failed(errno: Errno) | Datagram(bytes: seq<Byte>, truncated: bool)

  /**
   How a run ends: still waiting for the next datagram, returned, or ended by `exit(1)`; or stuck, still handing the
   handler a message the loop never steps off; or with a header read beyond the buffer.
  */
  datatype End = Waiting | Returned(value: int) | Exited | Stuck | Beyond

  type Final = e: End | e != Waiting witness Exited

  datatype Result = Result(calls: seq<Msg>, end: End)

  predicate Retried(e: Errno) { e.EINTR? || e.EAGAIN? || e.ENOBUFS? }

  function MsgLen(b: seq<Byte>): nat
    requires |b| >= NLMSG_HDR
  {
    Word(b, 0, 4)
  }

  /** The datagram splits into padded messages and less than a header: no message is empty or
      longer than what is left. */
  predicate Framed(b: seq<Byte>)
    decreases |b|
  {
    |b| < NLMSG_HDR || (0 < MsgLen(b) && Padded(MsgLen(b)) <= |b| && Framed(b[Padded(MsgLen(b))..]))
  }

  // --------------------------------------------------- the loop's arithmetic

  /** `NLMSG_ALIGN` of a 32-bit length, in 32 bits: the top three lengths wrap to 0. */
  function Step(len: nat): nat {
    Wrap32(Padded(len))
  }

  predicate Int32(x: int) { -(TWO32 / 2) <= x < TWO32 / 2 }

  /** The loop's test: `status`, a signed number, is compared as an unsigned word. */
  predicate GoesOn(status: int) { Wrap64(status) >= NLMSG_HDR }

  /** The status behind a message. */
  function After(status: int, len: nat): (r: int)
    ensures Int32(r)
  {
    Signed32(Wrap32(status - Step(len)))
  }

  /** How the walk of a buffer ends: with a status that stops the loop, at a message it never steps off, or
      with the next header beyond the buffer. */
  datatype Tail = Left(status: int) | Sticks | Overruns

  /** The message the handler is pointed to, as far as the buffer goes. */
  function Given(rest: seq<Byte>): Msg
    requires |rest| >= NLMSG_HDR
  {
    rest[..Min(MsgLen(rest), |rest|)]
  }

  /** The buffer from the next header on. */
  function Ahead(rest: seq<Byte>, step: nat): seq<Byte> {
    if step <= |rest| then rest[step..] else []
  }

  /**
   What the loop hands to the handler, from here to the end of the buffer, whatever it holds. A message it never
   steps off is handed over once and then again for each of `turns`.
  */
  function Messages(rest: seq<Byte>, status: int, turns: nat): seq<Msg>
    decreases |rest|, turns
  {
    if !GoesOn(status) || |rest| < NLMSG_HDR then []
    else
      var len := MsgLen(rest);
      [Given(rest)]
      + if Step(len) != 0 then Messages(Ahead(rest, Step(len)), After(status, len), turns)
        else if turns == 0 then []
        else Messages(rest, status, turns - 1)
  }

  function TailOf(rest: seq<Byte>, status: int): Tail
    decreases |rest|
  {
    if !GoesOn(status) then Left(status)
    else if |rest| < NLMSG_HDR then Overruns
    else
      var len := MsgLen(rest);
      if Step(len) == 0 then Sticks else TailOf(Ahead(rest, Step(len)), After(status, len))
  }

  /** A signed status makes the loop go on exactly when it is negative or covers a header. */
  lemma GoesOnIff(status: int)
    requires Int32(status)
    ensures GoesOn(status) <==> status < 0 || status >= NLMSG_HDR
  {
    if status >= 0 {
      ModUnique(status, TWO64, 0, status);
    } else {
      ModUnique(status, TWO64, -1, status + TWO64);
    }
  }

  lemma LengthIsWord(b: seq<Byte>)
    requires |b| >= NLMSG_HDR
    ensures MsgLen(b) < TWO32
  {
    var high: nat := b[3];
    assert Word(b, 3, 1) == high + 256 * Word(b, 4, 0);
    assert Word(b, 2, 2) == b[2] + 256 * Word(b, 3, 1);
    assert Word(b, 1, 3) == b[1] + 256 * Word(b, 2, 2);
  }

  lemma StepIsPadded(len: nat)
    requires len < TWO32
    ensures Step(len) == if Padded(len) == TWO32 then 0 else Padded(len)
    ensures Step(len) == 0 <==> len == 0 || Padded(len) == TWO32
    ensures Step(len) % 4 == 0 && Step(len) <= TWO32 - 4
  {
    if Padded(len) == TWO32 {
      ModUnique(TWO32, TWO32, 1, 0);
    } else {
      ModUnique(Padded(len), TWO32, 0, Padded(len));
    }
  }

  /** A step of zero leaves the status alone; a step within the buffer, from anywhere in it, subtracts. */
  lemma AfterStep(status: int, len: nat)
    requires len < TWO32 && Int32(status)
    ensures Step(len) == 0 ==> After(status, len) == status
    ensures 0 <= status + BUFFER <= 2 * BUFFER && Step(len) <= BUFFER ==> After(status, len) == status - Step(len)
  {
    var step := Step(len);
    if status >= step {
      ModUnique(status - step, TWO32, 0, status - step);
    } else if status - step >= -TWO32 {
      ModUnique(status - step, TWO32, -1, status - step + TWO32);
    }
  }

  /** What `recvmsg` promises: a datagram fits the buffer it was given. */
  predicate Sound(o: Received) {
    o.Datagram? ==> |o.bytes| <= BUFFER
  }

  predicate AllSound(os: seq<Received>) {
    forall i :: 0 <= i < |os| ==> Sound(os[i])
  }

  // ------------------------------------------------------- the flat reading

  /** The run laid flat: messages to handle, and what ends it. */
  datatype Event = Call(msg: Msg) | Stop(end: Final)

  function Calls(ms: seq<Msg>): (es: seq<Event>)
    ensures |es| == |ms| && forall i :: 0 <= i < |ms| ==> es[i] == Call(ms[i])
  {
    seq(|ms|, i requires 0 <= i < |ms| => Call(ms[i]))
  }

  /** The buffer when `recvmsg` has put a datagram into it. */
  function Fill(mem: seq<Byte>, bytes: seq<Byte>): (r: seq<Byte>)
    requires |bytes| <= |mem|
    ensures |r| == |mem|
  {
    bytes + mem[|bytes|..]
  }

  function Next(o: Received, mem: seq<Byte>): (r: seq<Byte>)
    requires |mem| == BUFFER && Sound(o)
    ensures |r| == BUFFER
  {
    if o.Datagram? then Fill(mem, o.bytes) else mem
  }

  /** How an outcome, met with this buffer, ends the run behind its messages, if it does. */
  function EndOf(o: Received, mem: seq<Byte>): End
    requires |mem| == BUFFER && Sound(o)
  {
    match o
    case Failed(e) => if Retried(e) then Waiting else Returned(-1)
    case Datagram(b, truncated) =>
      if b == [] then Returned(-1)
      else match TailOf(Fill(mem, b), |b|)
        case Left(status) => if !truncated && status != 0 then Exited else Waiting
        case Sticks => Stuck
        case Overruns => Beyond
  }

  function MessagesIn(o: Received, mem: seq<Byte>, turns: nat): seq<Msg>
    requires |mem| == BUFFER && Sound(o)
  {
    if o.Datagram? then Messages(Fill(mem, o.bytes), |o.bytes|, turns) else []
  }

  function Stops(end: End): seq<Event> {
    if end == Waiting then [] else [Stop(end)]
  }

  function EventsOf(o: Received, mem: seq<Byte>, turns: nat): seq<Event>
    requires |mem| == BUFFER && Sound(o)
  {
    Calls(MessagesIn(o, mem, turns)) + Stops(EndOf(o, mem))
  }

  function Tape(os: seq<Received>, mem: seq<Byte>, turns: nat): seq<Event>
    requires |mem| == BUFFER && AllSound(os)
  {
    if os == [] then [] else EventsOf(os[0], mem, turns) + Tape(os[1..], Next(os[0], mem), turns)
  }

  /** Playing the tape: the first negative answer, or the first event that ends the run, ends it. */
  function Play(tape: seq<Event>, calls: seq<Msg>, handler: Handler): Result
    decreases |tape|
  {
    if tape == [] then Result(calls, Waiting)
    else match tape[0]
      case Stop(end) => Result(calls, end)
      case Call(m) =>
        var calls' := calls + [m];
        if handler(calls') < 0 then Result(calls', Returned(handler(calls')))
        else Play(tape[1..], calls', handler)
  }

  lemma {:induction false} PlayAppend(a: seq<Event>, b: seq<Event>, calls: seq<Msg>, handler: Handler)
    ensures Play(a + b, calls, handler)
         == if Play(a, calls, handler).end.Waiting? then Play(b, Play(a, calls, handler).calls, handler)
            else Play(a, calls, handler)
    decreases |a|
  {
    if a == [] {
      assert a + b == b;
    } else {
      assert (a + b)[0] == a[0] && (a + b)[1..] == a[1..] + b;
      if a[0].Call? {
        PlayAppend(a[1..], b, calls + [a[0].msg], handler);
      }
    }
  }

  // ------------------------------------------------------------ the program

  /** `recvmsg` fills the front of the buffer. */
  method Receive(buf: array<Byte>, bytes: seq<Byte>) returns (status: int)
    requires |bytes| <= buf.Length
    modifies buf
    ensures status == |bytes| && buf[..] == Fill(old(buf[..]), bytes)
  {
    for i := 0 to |bytes|
      invariant buf[..i] == bytes[..i]
      invariant buf[i..] == old(buf[i..])
    {
      buf[i] := bytes[i];
    }
    status := |bytes|;
    assert buf[..] == buf[..status] + buf[status..];
  }

  lemma PlayCall(m: Msg, es: seq<Event>, calls: seq<Msg>, handler: Handler)
    ensures Play([Call(m)] + es, calls, handler)
         == if handler(calls + [m]) < 0 then Result(calls + [m], Returned(handler(calls + [m])))
            else Play(es, calls + [m], handler)
  {
    assert ([Call(m)] + es)[1..] == es;
  }

  lemma CallsCons(m: Msg, ms: seq<Msg>)
    ensures Calls([m] + ms) == [Call(m)] + Calls(ms)
  {
  }

  /** The inner loop's calls from here on, played. */
  function PlayRest(rest: seq<Byte>, status: int, turns: nat, calls: seq<Msg>, handler: Handler): Result {
    Play(Calls(Messages(rest, status, turns)), calls, handler)
  }

  /** One turn of the inner loop. */
  lemma PlayMessage(rest: seq<Byte>, status: int, turns: nat, calls: seq<Msg>, handler: Handler)
    requires GoesOn(status) && |rest| >= NLMSG_HDR
    ensures var len, calls' := MsgLen(rest), calls + [Given(rest)];
      PlayRest(rest, status, turns, calls, handler)
      == if handler(calls') < 0 then Result(calls', Returned(handler(calls')))
         else if Step(len) != 0 then PlayRest(Ahead(rest, Step(len)), After(status, len), turns, calls', handler)
         else if turns == 0 then Result(calls', Waiting)
         else PlayRest(rest, status, turns - 1, calls', handler)
  {
    hide MsgLen, Step, GoesOn, After, Given, Ahead;
    var len := MsgLen(rest);
    var more := if Step(len) != 0 then Messages(Ahead(rest, Step(len)), After(status, len), turns)
                else if turns == 0 then [] else Messages(rest, status, turns - 1);
    CallsCons(Given(rest), more);
    PlayCall(Given(rest), Calls(more), calls, handler);
  }

  lemma PlayNothing(rest: seq<Byte>, status: int, turns: nat, calls: seq<Msg>, handler: Handler)
    requires !GoesOn(status) || |rest| < NLMSG_HDR
    ensures PlayRest(rest, status, turns, calls, handler) == Result(calls, Waiting)
  {
    assert Calls([]) == [];
  }

  lemma MessagesStep(rest: seq<Byte>, status: int, turns: nat)
    requires GoesOn(status) && |rest| >= NLMSG_HDR && Step(MsgLen(rest)) != 0
    ensures var len := MsgLen(rest);
      Messages(rest, status, turns) == [Given(rest)] + Messages(Ahead(rest, Step(len)), After(status, len), turns)
  {
    hide MsgLen, Step, GoesOn, After, Given, Ahead;
  }

  lemma TailStep(rest: seq<Byte>, status: int)
    requires GoesOn(status) && |rest| >= NLMSG_HDR
    ensures var len := MsgLen(rest);
      TailOf(rest, status) == if Step(len) == 0 then Sticks else TailOf(Ahead(rest, Step(len)), After(status, len))
  {
  }

  lemma AheadStep(mem: seq<Byte>, h: nat, step: nat)
    ensures Ahead(Ahead(mem, h), step) == Ahead(mem, h + step) || Ahead(mem, h) == []
  {
  }

  lemma GivenAt(mem: seq<Byte>, h: nat)
    requires h + NLMSG_HDR <= |mem|
    ensures |Ahead(mem, h)| == |mem| - h && MsgLen(Ahead(mem, h)) == Word(mem, h, 4) < TWO32
    ensures Given(Ahead(mem, h)) == mem[h..Min(h + Word(mem, h, 4), |mem|)]
  {
    var rest := Ahead(mem, h);
    assert rest[0..4] == mem[h..h + 4];
    WordFrame(mem, h, rest, 0, 4);
    LengthIsWord(rest);
    var len := MsgLen(rest);
    assert rest[..Min(len, |rest|)] == mem[h..Min(h + len, |mem|)];
  }

  /** The inner loop, on any buffer: one handler call for each message. A message it never steps off is watched for
      `turns` repeats. */
  method HandleDatagram(buf: array<Byte>, received: int, turns: nat, calls0: seq<Msg>, handler: Handler)
    returns (calls: seq<Msg>, err: int, tail: Tail)
    requires 0 <= received <= buf.Length == BUFFER
    ensures Result(calls, if err < 0 then Returned(err) else Waiting)
         == PlayRest(buf[..], received, turns, calls0, handler)
    ensures err >= 0 ==> tail == TailOf(buf[..], received)
  {
    hide Messages, TailOf, Word, MsgLen, Step, Padded, GoesOn, After, Given, Ahead, Play;
    ghost var mem := buf[..];
    calls, err, tail := calls0, 0, Sticks;
    var status, h, left := received, 0, turns;
    StartOfBuffer(mem);
    while GoesOn(status)
      invariant Int32(status) && h >= 0 && buf[..] == mem
      invariant TailOf(Ahead(mem, h), status) == TailOf(mem, received)
      invariant PlayRest(Ahead(mem, h), status, left, calls, handler) == PlayRest(mem, received, turns, calls0, handler)
      invariant err >= 0
      decreases buf.Length - h, left
    {
      if h + NLMSG_HDR > buf.Length {
        BeyondBuffer(mem, h, status);
        PlayNothing(Ahead(mem, h), status, left, calls, handler);
        tail := Overruns;
        return;
      }
      GivenAt(mem, h);
      PlayMessage(Ahead(mem, h), status, left, calls, handler);
      TailStep(Ahead(mem, h), status);
      var len := Word(buf[..], h, 4);
      AfterStep(status, len);
      calls := calls + [buf[..][h..Min(h + len, buf.Length)]];
      err := handler(calls);
      if err < 0 { return; }
      if Step(len) == 0 {
        if left == 0 {
          // The loop goes on calling; the run is watched no longer.
          tail := Sticks;
          return;
        }
        left := left - 1;
      }
      AheadStep(mem, h, Step(len));
      SomeAhead(mem, h);
      status, h := After(status, len), h + Step(len);
    }
    PlayNothing(Ahead(mem, h), status, left, calls, handler);
    NotOn(Ahead(mem, h), status);
    tail := Left(status);
  }

  lemma StartOfBuffer(mem: seq<Byte>)
    ensures Ahead(mem, 0) == mem
  {
  }

  lemma SomeAhead(mem: seq<Byte>, h: nat)
    requires h + NLMSG_HDR <= |mem|
    ensures Ahead(mem, h) != []
  {
  }

  lemma BeyondBuffer(mem: seq<Byte>, h: nat, status: int)
    requires h + NLMSG_HDR > |mem| && GoesOn(status)
    ensures |Ahead(mem, h)| < NLMSG_HDR && TailOf(Ahead(mem, h), status) == Overruns
  {
  }

  lemma NotOn(rest: seq<Byte>, status: int)
    requires !GoesOn(status)
    ensures TailOf(rest, status) == Left(status)
  {
  }

  /** One turn of the receive loop; `Waiting` means it goes round again. */
  method HandleOutcome(buf: array<Byte>, o: Received, turns: nat, calls: seq<Msg>, handler: Handler)
    returns (r: Result)
    requires buf.Length == BUFFER && Sound(o)
    modifies buf
    ensures buf[..] == Next(o, old(buf[..]))
    ensures r == Play(EventsOf(o, old(buf[..]), turns), calls, handler)
  {
    hide Messages, TailOf;
    ghost var mem := buf[..];
    PlayAppend(Calls(MessagesIn(o, mem, turns)), Stops(EndOf(o, mem)), calls, handler);
    if o.Failed? {
      PlayNoCalls(calls, handler);
      if Retried(o.errno) { return Result(calls, Waiting); }
      return Result(calls, Returned(-1));
    }
    var status := Receive(buf, o.bytes);
    if status == 0 {
      GoesOnIff(0);
      PlayNothing(buf[..], 0, turns, calls, handler);
      return Result(calls, Returned(-1));
    }
    var calls', err, tail := HandleDatagram(buf, status, turns, calls, handler);
    if err < 0 { return Result(calls', Returned(err)); }
    match tail {
      case Sticks => return Result(calls', Stuck);
      case Overruns => return Result(calls', Beyond);
      case Left(left) =>
        if o.truncated { return Result(calls', Waiting); }
        if left != 0 { return Result(calls', Exited); }
        return Result(calls', Waiting);
    }
  }

  lemma PlayNoCalls(calls: seq<Msg>, handler: Handler)
    ensures Play(Calls([]), calls, handler) == Result(calls, Waiting)
  {
  }

  lemma TapeFrom(os: seq<Received>, k: nat, mem: seq<Byte>, turns: nat)
    requires |mem| == BUFFER && AllSound(os) && k < |os|
    ensures Tape(os[k..], mem, turns) == EventsOf(os[k], mem, turns) + Tape(os[k + 1..], Next(os[k], mem), turns)
  {
    assert os[k..][1..] == os[k + 1..];
  }

  /** `netlink_listen` over a finite run of outcomes; `stack` is what the buffer holds at first. */
  method NetlinkListen(os: seq<Received>, stack: seq<Byte>, turns: nat, handler: Handler) returns (r: Result)
    requires |stack| == 16384 && AllSound(os)
    ensures r == Play(Tape(os, stack, turns), [], handler)
  {
    hide Tape, Play, EventsOf, Next;
    var buf := new Byte[BUFFER](i requires 0 <= i < BUFFER => stack[i]);
    assert buf[..] == stack;
    r := Result([], Waiting);
    assert os[0..] == os;
    for k := 0 to |os|
      invariant r.end.Waiting?
      invariant Play(Tape(os, stack, turns), [], handler) == Play(Tape(os[k..], buf[..], turns), r.calls, handler)
    {
      ghost var mem := buf[..];
      TapeFrom(os, k, mem, turns);
      PlayAppend(EventsOf(os[k], mem, turns), Tape(os[k + 1..], Next(os[k], mem), turns), r.calls, handler);
      r := HandleOutcome(buf, os[k], turns, r.calls, handler);
      if !r.end.Waiting? { return; }
    }
    NoTape(buf[..], turns, r.calls, handler);
    assert os[|os|..] == [];
  }

  lemma NoTape(mem: seq<Byte>, turns: nat, calls: seq<Msg>, handler: Handler)
    requires |mem| == BUFFER
    ensures Play(Tape([], mem, turns), calls, handler) == Result(calls, Waiting)
  {
  }

  // ----------------------------------------------------------- what it means

  /** The messages of a tape up to the event that ends it, and that event's verdict. */
  function Upto(tape: seq<Event>): seq<Msg>
    decreases |tape|
  {
    if tape == [] || !tape[0].Call? then [] else [tape[0].msg] + Upto(tape[1..])
  }

  function Verdict(tape: seq<Event>): End
    decreases |tape|
  {
    if tape == [] then Waiting
    else match tape[0]
      case Call(_) => Verdict(tape[1..])
      case Stop(end) => end
  }

  /** The handler answers no proper prefix of the calls, from `from` on, with a negative number. */
  predicate Quiet(ms: seq<Msg>, from: nat, to: nat, handler: Handler) {
    forall k :: from < k <= to <= |ms| ==> handler(ms[..k]) >= 0
  }

  /**
   The handler sees the messages in order, across datagrams, up to and including the first it answers
   with a negative number, which is then the result; if it answers none so, it sees them all and the
   run ends as its first ending event says.
  */
  lemma {:induction false} PlayMeans(tape: seq<Event>, calls: seq<Msg>, handler: Handler)
    ensures var ms, r := calls + Upto(tape), Play(tape, calls, handler);
      && r.calls <= ms && |calls| <= |r.calls|
      && (if Quiet(ms, |calls|, |ms|, handler) then r == Result(ms, Verdict(tape))
          else |r.calls| > |calls| && Quiet(ms, |calls|, |r.calls| - 1, handler)
               && handler(r.calls) < 0 && r.end == Returned(handler(r.calls)))
    decreases |tape|
  {
    var ms := calls + Upto(tape);
    if tape != [] && tape[0].Call? {
      var calls' := calls + [tape[0].msg];
      assert calls' + Upto(tape[1..]) == ms;
      assert ms[..|calls'|] == calls';
      if handler(calls') >= 0 {
        PlayMeans(tape[1..], calls', handler);
      }
    } else {
      assert ms == calls;
    }
  }

  lemma {:induction false} CallsUpto(ms: seq<Msg>)
    ensures Upto(Calls(ms)) == ms && Verdict(Calls(ms)) == Waiting
    decreases |ms|
  {
    if ms == [] {
    } else {
      assert Calls(ms)[1..] == Calls(ms[1..]);
      CallsUpto(ms[1..]);
    }
  }
}
