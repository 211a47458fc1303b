/** What `netlink_listen` promises for whole runs of well-formed datagrams. */
module ListenRuns {
  import opened Bytes
  import opened Words
  import opened Sequences
  import opened Rtattr
  import opened Listen
  import opened ListenWalk

  /** A message as it stands in a datagram: its own length first, then padding of any content. */
  datatype Item = Item(msg: Msg, pad: seq<Byte>)

  predicate ValidItem(x: Item) {
    && |x.msg| >= NLMSG_HDR && Word(x.msg, 0, 4) == |x.msg|
    && |x.msg| + |x.pad| == Padded(|x.msg|) < TWO32
  }

  predicate AllValid(xs: seq<Item>) {
    forall i :: 0 <= i < |xs| ==> ValidItem(xs[i])
  }

  function Pack(xs: seq<Item>): seq<Byte> {
    if xs == [] then [] else xs[0].msg + xs[0].pad + Pack(xs[1..])
  }

  function MsgsOf(xs: seq<Item>): seq<Msg> {
    if xs == [] then [] else [xs[0].msg] + MsgsOf(xs[1..])
  }

  /** Packing and reading back is the identity on message lists, for any padding, and nothing is left over. */
  lemma {:induction false} UnpackPack(xs: seq<Item>)
    requires AllValid(xs)
    ensures Framed(Pack(xs)) && FramedMessages(Pack(xs)) == MsgsOf(xs) && Remnant(Pack(xs)) == []
    decreases |xs|
  {
    if xs == [] {
    } else {
      hide MsgLen;
      assert ValidItem(xs[0]);
      UnpackPack(xs[1..]);
      LengthThere(xs[0], Pack(xs));
      assert Pack(xs)[..|xs[0].msg|] == xs[0].msg;
      assert Pack(xs)[Padded(|xs[0].msg|)..] == Pack(xs[1..]);
    }
  }

  /** Over whole padded messages at its front the loop goes on to whatever the buffer holds behind them. */
  lemma {:induction false} UnpackMore(xs: seq<Item>, rest: seq<Byte>, status: nat, turns: nat)
    requires AllValid(xs) && |Pack(xs)| + status <= BUFFER
    ensures Messages(Pack(xs) + rest, |Pack(xs)| + status, turns) == MsgsOf(xs) + Messages(rest, status, turns)
    ensures TailOf(Pack(xs) + rest, |Pack(xs)| + status) == TailOf(rest, status)
    decreases |xs|
  {
    hide Messages, TailOf;
    if xs == [] {
      assert Pack(xs) + rest == rest;
    } else {
      assert ValidItem(xs[0]);
      UnpackMore(xs[1..], rest, status, turns);
      Assoc(xs[0].msg + xs[0].pad, Pack(xs[1..]), rest);
      UnpackOne(xs[0], Pack(xs[1..]) + rest, |Pack(xs[1..])| + status, turns);
      Assoc([xs[0].msg], MsgsOf(xs[1..]), Messages(rest, status, turns));
    }
  }

  lemma UnpackOne(x: Item, rest: seq<Byte>, status: nat, turns: nat)
    requires ValidItem(x) && |x.msg| + |x.pad| + status <= BUFFER
    ensures var b, n := x.msg + x.pad + rest, |x.msg| + |x.pad| + status;
      Messages(b, n, turns) == [x.msg] + Messages(rest, status, turns) && TailOf(b, n) == TailOf(rest, status)
  {
    hide MsgLen, Step, GoesOn, After, Messages, TailOf, Padded;
    var b, n := x.msg + x.pad + rest, |x.msg| + |x.pad| + status;
    LengthThere(x, b);
    StepIsPadded(|x.msg|);
    AfterStep(n, |x.msg|);
    GoesOnIff(n);
    MessagesStep(b, n, turns);
    TailStep(b, n);
    assert b[..|x.msg|] == x.msg;
    assert b[Padded(|x.msg|)..] == rest;
  }

  /** The length field of a message that is there with its header. */
  lemma LengthThere(x: Item, b: seq<Byte>)
    requires ValidItem(x) && |b| >= NLMSG_HDR && b[..NLMSG_HDR] == x.msg[..NLMSG_HDR]
    ensures MsgLen(b) == |x.msg| < TWO32
  {
    assert b[0..4] == b[..NLMSG_HDR][0..4] == x.msg[0..4];
    WordFrame(b, 0, x.msg, 0, 4);
    LengthIsWord(b);
  }

  /** Where the loop stands behind a message of which only `n` bytes arrived. */
  lemma PartOfMessage(x: Item, rest: seq<Byte>, n: nat, turns: nat)
    requires ValidItem(x) && NLMSG_HDR <= n < Padded(|x.msg|) <= TWO32 / 2 && n <= |rest| <= BUFFER
    requires rest[..n] == (x.msg + x.pad)[..n]
    ensures var further, left := Ahead(rest, Padded(|x.msg|)), n - Padded(|x.msg|);
      && Messages(rest, n, turns) == [Given(rest)] + Messages(further, left, turns)
      && TailOf(rest, n) == TailOf(further, left) && GoesOn(left)
    ensures Min(n, |x.msg|) <= |Given(rest)| && Given(rest)[..Min(n, |x.msg|)] == x.msg[..Min(n, |x.msg|)]
  {
    hide MsgLen, Padded, Messages, TailOf, GoesOn;
    PartAgrees(x, rest, n);
    LengthThere(x, rest);
    PartWalk(rest, n, |x.msg|, turns);
    var m := Min(n, |x.msg|);
    assert Given(rest)[..m] == rest[..m];
  }

  lemma PartAgrees(x: Item, rest: seq<Byte>, n: nat)
    requires NLMSG_HDR <= n < |x.msg| + |x.pad| && NLMSG_HDR <= |x.msg| && n <= |rest|
    requires rest[..n] == (x.msg + x.pad)[..n]
    ensures var m := Min(n, |x.msg|); rest[..m] == x.msg[..m] && rest[..NLMSG_HDR] == x.msg[..NLMSG_HDR]
  {
    forall k | 0 <= k < Min(n, |x.msg|) ensures rest[k] == x.msg[k] {
      assert rest[..n][k] == (x.msg + x.pad)[..n][k];
    }
  }

  lemma PartWalk(rest: seq<Byte>, n: nat, len: nat, turns: nat)
    requires NLMSG_HDR <= n <= |rest| <= BUFFER && MsgLen(rest) == len < TWO32 && n < Padded(len) <= TWO32 / 2
    ensures var further, left := Ahead(rest, Padded(len)), n - Padded(len);
      && Messages(rest, n, turns) == [Given(rest)] + Messages(further, left, turns)
      && TailOf(rest, n) == TailOf(further, left) && GoesOn(left)
  {
    hide MsgLen, Step, GoesOn, After, Given, Padded, Messages, TailOf;
    StepIsPadded(len);
    AfterLong(n, len);
    GoesOnIff(n);
    GoesOnIff(n - Padded(len));
    MessagesStep(rest, n, turns);
    TailStep(rest, n);
  }

  lemma AfterLong(n: nat, len: nat)
    requires n <= BUFFER && len < TWO32 && n < Padded(len) <= TWO32 / 2
    ensures After(n, len) == n - Padded(len)
  {
    StepIsPadded(len);
    ModUnique(n - Padded(len), TWO32, -1, n - Padded(len) + TWO32);
  }

  /**
   A datagram cut at any byte of a message: if less than a header of it arrived, the loop stops there. If more, the
   handler is given that part as well, with what the buffer holds behind it for the rest; and the loop goes on,
   with a negative status, behind the message's announced end, instead of looking at the truncation flag.
  */
  lemma CutDatagram(xs: seq<Item>, x: Item, n: nat, stale: seq<Byte>, turns: nat)
    requires AllValid(xs) && ValidItem(x) && n < |x.msg| + |x.pad| <= TWO32 / 2
    requires |Pack(xs)| + n + |stale| <= BUFFER
    ensures var rest := (x.msg + x.pad)[..n] + stale; var mem, received := Pack(xs) + rest, |Pack(xs)| + n;
      if n < NLMSG_HDR then Messages(mem, received, turns) == MsgsOf(xs) && TailOf(mem, received) == Left(n)
      else
        var further, left := Ahead(rest, Padded(|x.msg|)), n - Padded(|x.msg|);
        && left < 0 && GoesOn(left) && TailOf(mem, received) == TailOf(further, left)
        && Messages(mem, received, turns) == MsgsOf(xs) + ([Given(rest)] + Messages(further, left, turns))
        && Given(rest)[..Min(n, |x.msg|)] == x.msg[..Min(n, |x.msg|)]
  {
    hide Messages, TailOf, Given, Pack, MsgsOf, Padded;
    var part := (x.msg + x.pad)[..n];
    var rest := part + stale;
    UnpackMore(xs, rest, n, turns);
    if n < NLMSG_HDR {
      GoesOnIff(n);
      NoMessages(rest, n, turns);
      NotOn(rest, n);
      assert MsgsOf(xs) + [] == MsgsOf(xs);
    } else {
      assert rest[..n] == part;
      PartOfMessage(x, rest, n, turns);
    }
  }

  lemma NoMessages(rest: seq<Byte>, status: int, turns: nat)
    requires !GoesOn(status)
    ensures Messages(rest, status, turns) == []
  {
  }

  /** A buffer of zeros but for a header that announces a hundred bytes. */
  function CutBuffer(): (mem: seq<Byte>)
    ensures |mem| == BUFFER && mem[..4] == Put(100, 4)
    ensures mem[100..104] == Put(0, 4)
  {
    assert Put(0, 4) == [0, 0, 0, 0] by { assert Put(0, 2) == [0, 0]; }
    Put(100, 4) + seq(BUFFER - 4, _ => 0)
  }

  lemma CutBufferLengths()
    ensures MsgLen(CutBuffer()) == 100 && MsgLen(CutBuffer()[100..]) == 0
  {
    var mem := CutBuffer();
    assert Exp256(4) > 100 by { assert Exp256(1) == 256; }
    assert mem[100..][0..4] == mem[100..104];
    WordAt(mem, 0, 100, 4);
    WordAt(mem[100..], 0, 0, 4);
  }

  /** The shortest such input: sixteen bytes, flagged as cut, with zeros behind them in the buffer. The flag, which
      would have sent the loop round again, is not looked at: the handler is called with the header and the zeros
      behind it, and then with an empty message, on which the loop sticks. */
  lemma CutIsNotRetried(handler: Handler)
    requires handler([CutBuffer()[..100]]) >= 0 && handler([CutBuffer()[..100], []]) >= 0
    ensures Fill(CutBuffer(), CutBuffer()[..NLMSG_HDR]) == CutBuffer()
    ensures Play(Tape([Datagram(CutBuffer()[..NLMSG_HDR], true)], CutBuffer(), 0), [], handler)
         == Result([CutBuffer()[..100], []], Stuck)
  {
    hide MsgLen, CutBuffer, Messages, TailOf, Play, Tape;
    var mem := CutBuffer();
    var o := Datagram(mem[..NLMSG_HDR], true);
    var first, second := mem[..100], [];
    assert Fill(mem, o.bytes) == mem;
    CutWalk();
    OneOutcome(o, mem, 0);
    assert Calls([first, second]) + [Stop(Stuck)] == [Call(first)] + ([Call(second)] + [Stop(Stuck)]);
    assert [] + [first] == [first] && [first] + [second] == [first, second];
    PlayCall(first, [Call(second)] + [Stop(Stuck)], [], handler);
    PlayCall(second, [Stop(Stuck)], [first], handler);
    PlayStop(Stuck, [first, second], handler);
  }

  lemma PlayStop(end: Final, calls: seq<Msg>, handler: Handler)
    ensures Play([Stop(end)], calls, handler) == Result(calls, end)
  {
  }

  lemma OneOutcome(o: Received, mem: seq<Byte>, turns: nat)
    requires |mem| == BUFFER && Sound(o)
    ensures Tape([o], mem, turns) == EventsOf(o, mem, turns)
  {
    hide EventsOf, Next;
    assert [o][1..] == [];
    assert EventsOf(o, mem, turns) + [] == EventsOf(o, mem, turns);
  }

  lemma CutWalk()
    ensures Messages(CutBuffer(), NLMSG_HDR, 0) == [CutBuffer()[..100], []]
    ensures TailOf(CutBuffer(), NLMSG_HDR) == Sticks
  {
    hide MsgLen, CutBuffer, GoesOn;
    var mem := CutBuffer();
    CutBufferLengths();
    StepIsPadded(100);
    StepIsPadded(0);
    PartWalk(mem, NLMSG_HDR, 100, 0);
    var further := mem[100..];
    assert Messages(further, -84, 0) == [Given(further)] + [];
    assert Given(further) == [] && Given(mem) == mem[..100];
    assert [mem[..100]] + [[]] == [mem[..100], []];
  }

  function Items(b: seq<Byte>): seq<Item>
    requires Framed(b)
    decreases |b|
  {
    if |b| < NLMSG_HDR then []
    else [Item(b[..MsgLen(b)], b[MsgLen(b)..Padded(MsgLen(b))])] + Items(b[Padded(MsgLen(b))..])
  }

  /** Reading loses nothing: messages, padding and remnant together are the datagram. */
  lemma {:induction false} PackUnpack(b: seq<Byte>)
    requires Framed(b)
    ensures b == Pack(Items(b)) + Remnant(b) && MsgsOf(Items(b)) == FramedMessages(b) && |Remnant(b)| < NLMSG_HDR
    decreases |b|
  {
    if |b| < NLMSG_HDR {
    } else {
      hide MsgLen, Padded;
      var n, tail := MsgLen(b), b[Padded(MsgLen(b))..];
      PackUnpack(tail);
      var x := Item(b[..n], b[n..Padded(n)]);
      PackCons(x, Items(tail));
      ThreeParts(b, n, Padded(n));
      Assoc(x.msg + x.pad, Pack(Items(tail)), Remnant(tail));
      assert Items(b) == [x] + Items(tail);
    }
  }

  lemma PackCons(x: Item, xs: seq<Item>)
    ensures Pack([x] + xs) == x.msg + x.pad + Pack(xs) && MsgsOf([x] + xs) == [x.msg] + MsgsOf(xs)
  {
    assert ([x] + xs)[1..] == xs;
  }

  lemma ThreeParts(b: seq<Byte>, n: nat, p: nat)
    requires n <= p <= |b|
    ensures b == b[..n] + b[n..p] + b[p..]
  {
  }

  // ------------------------------------------------------------- whole runs

  /** Every outcome is a transient error or a datagram of whole padded messages. */
  predicate Clean(o: Received) {
    match o
    case Failed(e) => !e.Other?
    case Datagram(b, _) => b != [] && |b| <= BUFFER && Framed(b) && Remnant(b) == []
  }

  predicate AllClean(os: seq<Received>) {
    forall i :: 0 <= i < |os| ==> Clean(os[i])
  }

  function CleanMessages(o: Received): seq<Msg>
    requires Clean(o)
  {
    if o.Datagram? then FramedMessages(o.bytes) else []
  }

  /** All messages of all datagrams, in order. */
  function AllMessages(os: seq<Received>): seq<Msg>
    requires AllClean(os)
  {
    if os == [] then [] else assert Clean(os[0]); CleanMessages(os[0]) + AllMessages(os[1..])
  }

  lemma CallsConcat(a: seq<Msg>, b: seq<Msg>)
    ensures Calls(a + b) == Calls(a) + Calls(b)
  {
  }

  /** A clean outcome gives its messages and nothing else, whatever the buffer held before. */
  lemma CleanEvents(o: Received, mem: seq<Byte>, turns: nat)
    requires Clean(o) && |mem| == BUFFER
    ensures Sound(o) && EventsOf(o, mem, turns) == Calls(CleanMessages(o))
  {
    hide Messages, TailOf, Framed, FramedMessages, Remnant;
    assert Calls(CleanMessages(o)) + [] == Calls(CleanMessages(o));
    if o.Datagram? {
      assert Fill(mem, o.bytes)[..|o.bytes|] == o.bytes;
      FramedWalk(Fill(mem, o.bytes), |o.bytes|, turns);
    }
  }

  lemma CleanIsSound(os: seq<Received>)
    requires AllClean(os)
    ensures AllSound(os)
  {
    forall i | 0 <= i < |os| ensures Sound(os[i]) {
      assert Clean(os[i]);
    }
  }

  /** A clean run lies flat as its messages and nothing else: no error is returned, no remnant found. */
  lemma {:induction false} CleanTape(os: seq<Received>, mem: seq<Byte>, turns: nat)
    requires AllClean(os) && |mem| == BUFFER
    ensures AllSound(os) && Tape(os, mem, turns) == Calls(AllMessages(os))
    decreases |os|
  {
    hide Clean, EventsOf, CleanMessages, Next;
    CleanIsSound(os);
    if os == [] {
    } else {
      assert Clean(os[0]);
      CleanEvents(os[0], mem, turns);
      CleanTape(os[1..], Next(os[0], mem), turns);
      CallsConcat(CleanMessages(os[0]), AllMessages(os[1..]));
    }
  }

  /**
   Over a clean run the handler is called on exactly the messages of all datagrams, in order. If it
   answers one with a negative number, the first such message is the last it sees and the answer is
   returned; otherwise it sees all and the listener waits for more. It never exits on a remnant, sticks or reads
   beyond the buffer.
  */
  lemma ListenClean(os: seq<Received>, mem: seq<Byte>, turns: nat, handler: Handler)
    requires AllClean(os) && |mem| == BUFFER
    ensures AllSound(os)
    ensures var ms, r := AllMessages(os), Play(Tape(os, mem, turns), [], handler);
      && r.calls <= ms
      && (if Quiet(ms, 0, |ms|, handler) then r == Result(ms, Waiting)
          else r.calls != [] && Quiet(ms, 0, |r.calls| - 1, handler)
               && handler(r.calls) < 0 && r.end == Returned(handler(r.calls)))
  {
    hide Play, Tape, Clean;
    CleanTape(os, mem, turns);
    CallsUpto(AllMessages(os));
    PlayMeans(Tape(os, mem, turns), [], handler);
    assert [] + AllMessages(os) == AllMessages(os);
  }

  /** If message k is the first the handler answers negatively, the listener returns that answer after
      exactly k calls, wherever the datagram boundaries fall. */
  lemma FirstNegative(os: seq<Received>, mem: seq<Byte>, turns: nat, handler: Handler, k: nat)
    requires AllClean(os) && |mem| == BUFFER && 0 < k <= |AllMessages(os)|
    requires handler(AllMessages(os)[..k]) < 0 && Quiet(AllMessages(os), 0, k - 1, handler)
    ensures AllSound(os)
    ensures Play(Tape(os, mem, turns), [], handler)
         == Result(AllMessages(os)[..k], Returned(handler(AllMessages(os)[..k])))
  {
    hide Play, Tape, Clean;
    ListenClean(os, mem, turns, handler);
    var ms, r := AllMessages(os), Play(Tape(os, mem, turns), [], handler);
    assert r.calls == ms[..|r.calls|];
    assert !Quiet(ms, 0, |ms|, handler);
    assert !(|r.calls| < k) && !(|r.calls| > k);
  }

  // ------------------------------------------------------- transient errors

  predicate Transient(o: Received) {
    o == Failed(EINTR) || o == Failed(EAGAIN) || o == Failed(ENOBUFS)
  }

  function DropTransient(os: seq<Received>): seq<Received> {
    if os == [] then [] else (if Transient(os[0]) then [] else [os[0]]) + DropTransient(os[1..])
  }

  /** Transient receive errors change neither the calls nor the result, in any run. */
  lemma TransientErrorsInvisible(os: seq<Received>, mem: seq<Byte>, turns: nat, handler: Handler)
    requires AllSound(os) && |mem| == BUFFER
    ensures AllSound(DropTransient(os))
    ensures Play(Tape(DropTransient(os), mem, turns), [], handler) == Play(Tape(os, mem, turns), [], handler)
  {
    DropTape(os, mem, turns);
  }

  lemma {:induction false} DropTape(os: seq<Received>, mem: seq<Byte>, turns: nat)
    requires AllSound(os) && |mem| == BUFFER
    ensures AllSound(DropTransient(os)) && Tape(DropTransient(os), mem, turns) == Tape(os, mem, turns)
    decreases |os|
  {
    hide EventsOf, Next;
    if os == [] {
    } else {
      assert Sound(os[0]);
      DropTape(os[1..], Next(os[0], mem), turns);
      if Transient(os[0]) {
        NoEvents(os[0], mem, turns);
        assert [] + Tape(os[1..], mem, turns) == Tape(os[1..], mem, turns);
        assert DropTransient(os) == DropTransient(os[1..]);
      } else {
        TapeCons(os[0], DropTransient(os[1..]), mem, turns);
      }
    }
  }

  lemma NoEvents(o: Received, mem: seq<Byte>, turns: nat)
    requires Transient(o) && |mem| == BUFFER
    ensures EventsOf(o, mem, turns) == [] && Next(o, mem) == mem
  {
  }

  lemma TapeCons(o: Received, os: seq<Received>, mem: seq<Byte>, turns: nat)
    requires Sound(o) && AllSound(os) && |mem| == BUFFER
    ensures AllSound([o] + os)
    ensures Tape([o] + os, mem, turns) == EventsOf(o, mem, turns) + Tape(os, Next(o, mem), turns)
  {
    hide EventsOf, Next;
    assert ([o] + os)[1..] == os;
  }

  /** A message that announces more than the buffer takes the loop beyond it, however much of it arrived: the handler is
      called once, with the whole buffer. */
  lemma OversizedRunsOver(mem: seq<Byte>, n: nat, cut: bool, turns: nat, handler: Handler)
    requires |mem| == 16384 && 16 <= n <= 16384 && 16384 < MsgLen(mem) <= TWO32 / 2 - 4 && handler([mem]) >= 0
    ensures Play(Tape([Datagram(mem[..n], cut)], mem, turns), [], handler) == Result([mem], Beyond)
  {
    hide Tape, Play, Messages, TailOf, MsgLen, Padded, GoesOn;
    var o, len := Datagram(mem[..n], cut), MsgLen(mem);
    assert Fill(mem, o.bytes) == mem;
    PartWalk(mem, n, len, turns);
    NothingAhead(n - Padded(len), turns);
    assert Ahead(mem, Padded(len)) == [];
    assert Given(mem) == mem && [mem] + [] == [mem];
    OneOutcome(o, mem, turns);
    assert Calls([mem]) == [Call(mem)];
    PlayCall(mem, [Stop(Beyond)], [], handler);
    assert [] + [mem] == [mem];
    PlayStop(Beyond, [mem], handler);
  }

  lemma NothingAhead(status: int, turns: nat)
    requires GoesOn(status)
    ensures Messages([], status, turns) == [] && TailOf([], status) == Overruns
  {
  }

  // ------------------------------------------------------------ longer runs

  /** The buffer after the first `k` outcomes. */
  function BufferAt(os: seq<Received>, mem: seq<Byte>, k: nat): (r: seq<Byte>)
    requires |mem| == BUFFER && AllSound(os) && k <= |os|
    ensures |r| == BUFFER
    decreases k
  {
    if k == 0 then mem else BufferAt(os[1..], Next(os[0], mem), k - 1)
  }

  lemma {:induction false} TapeAppend(a: seq<Received>, b: seq<Received>, mem: seq<Byte>, turns: nat)
    requires AllSound(a) && AllSound(b) && |mem| == BUFFER
    ensures AllSound(a + b)
    ensures Tape(a + b, mem, turns) == Tape(a, mem, turns) + Tape(b, BufferAt(a, mem, |a|), turns)
    decreases |a|
  {
    hide EventsOf, Next;
    if a == [] {
      assert a + b == b;
    } else {
      assert Sound(a[0]);
      assert (a + b)[1..] == a[1..] + b;
      TapeAppend(a[1..], b, Next(a[0], mem), turns);
      Assoc(EventsOf(a[0], mem, turns), Tape(a[1..], Next(a[0], mem), turns), Tape(b, BufferAt(a, mem, |a|), turns));
    }
  }

  /** Runs agree with their beginnings: once a run has ended, more outcomes change nothing; until then, a longer run
      goes on from the calls of the shorter. */
  lemma LongerRun(a: seq<Received>, b: seq<Received>, mem: seq<Byte>, turns: nat, handler: Handler)
    requires AllSound(a) && AllSound(b) && |mem| == BUFFER
    ensures AllSound(a + b)
    ensures var r, longer := Play(Tape(a, mem, turns), [], handler), Play(Tape(a + b, mem, turns), [], handler);
      && r.calls <= longer.calls
      && (r.end != Waiting ==> longer == r)
      && (r.end == Waiting ==> longer == Play(Tape(b, BufferAt(a, mem, |a|), turns), r.calls, handler))
  {
    hide Tape, Play;
    TapeAppend(a, b, mem, turns);
    PlayAppend(Tape(a, mem, turns), Tape(b, BufferAt(a, mem, |a|), turns), [], handler);
    var r := Play(Tape(a, mem, turns), [], handler);
    PlayMeans(Tape(b, BufferAt(a, mem, |a|), turns), r.calls, handler);
    var longer := Play(Tape(a + b, mem, turns), [], handler);
    assert r.end == Waiting ==> longer.calls[..|r.calls|] == r.calls;
  }

  /** Anywhere in a run, an EINTR, EAGAIN or ENOBUFS is as if it had not been. */
  lemma TransientAnywhere(a: seq<Received>, e: Errno, b: seq<Received>, mem: seq<Byte>, turns: nat, handler: Handler)
    requires AllSound(a) && AllSound(b) && |mem| == BUFFER
    requires e == EINTR || e == EAGAIN || e == ENOBUFS
    ensures AllSound(a + [Failed(e)] + b) && AllSound(a + b)
    ensures Play(Tape(a + [Failed(e)] + b, mem, turns), [], handler) == Play(Tape(a + b, mem, turns), [], handler)
  {
    hide Tape, Play, EventsOf, Next;
    var mem' := BufferAt(a, mem, |a|);
    TapeAppend(a, b, mem, turns);
    TapeAppend(a, [Failed(e)] + b, mem, turns);
    TapeCons(Failed(e), b, mem', turns);
    NoEvents(Failed(e), mem', turns);
    assert [] + Tape(b, mem', turns) == Tape(b, mem', turns);
    Assoc(a, [Failed(e)], b);
  }

  /** Anywhere in a run that gets so far, any other error and an empty datagram end it with -1. */
  lemma FatalAnywhere(a: seq<Received>, o: Received, b: seq<Received>, mem: seq<Byte>, turns: nat, handler: Handler)
    requires AllSound(a) && AllSound(b) && |mem| == BUFFER
    requires (o.Failed? && o.errno.Other?) || (o.Datagram? && o.bytes == [])
    ensures AllSound(a + [o] + b)
    ensures var r := Play(Tape(a, mem, turns), [], handler);
      Play(Tape(a + [o] + b, mem, turns), [], handler) == if r.end == Waiting then Result(r.calls, Returned(-1)) else r
  {
    hide Tape, Play, EventsOf, Next;
    var mem' := BufferAt(a, mem, |a|);
    TapeAppend(a, [o] + b, mem, turns);
    TapeCons(o, b, mem', turns);
    Assoc(a, [o], b);
    var rest := Tape([o] + b, mem', turns);
    FatalEvents(o, mem', turns);
    PlayAppend(Tape(a, mem, turns), rest, [], handler);
    PlayFatal(Tape(b, Next(o, mem'), turns), Play(Tape(a, mem, turns), [], handler).calls, handler);
  }

  lemma FatalEvents(o: Received, mem: seq<Byte>, turns: nat)
    requires |mem| == BUFFER && ((o.Failed? && o.errno.Other?) || (o.Datagram? && o.bytes == []))
    ensures Sound(o) && EventsOf(o, mem, turns) == [Stop(Returned(-1))]
  {
    GoesOnIff(0);
    if o.Datagram? {
      NoMessages(Fill(mem, []), 0, turns);
    }
    assert Calls([]) == [];
  }

  lemma PlayFatal(es: seq<Event>, calls: seq<Msg>, handler: Handler)
    ensures Play([Stop(Returned(-1))] + es, calls, handler) == Result(calls, Returned(-1))
  {
  }

  /** Behind whole messages that the handler takes, some bytes short of a header are left over: the run goes on if
      the datagram was cut, and exits if it was not. */
  lemma LeftoverDecides(xs: seq<Item>, left: seq<Byte>, cut: bool, mem: seq<Byte>, turns: nat, handler: Handler)
    requires AllValid(xs) && 0 < |left| < NLMSG_HDR && |Pack(xs) + left| <= BUFFER == |mem|
    requires Quiet(MsgsOf(xs), 0, |MsgsOf(xs)|, handler)
    ensures Play(Tape([Datagram(Pack(xs) + left, cut)], mem, turns), [], handler)
         == Result(MsgsOf(xs), if cut then Waiting else Exited)
  {
    hide Tape, Play, Messages, TailOf;
    var b := Pack(xs) + left;
    var o := Datagram(b, cut);
    var rest := left + mem[|b|..];
    Assoc(Pack(xs), left, mem[|b|..]);
    UnpackMore(xs, rest, |left|, turns);
    GoesOnIff(|left|);
    NoMessages(rest, |left|, turns);
    NotOn(rest, |left|);
    assert MsgsOf(xs) + [] == MsgsOf(xs);
    OneOutcome(o, mem, turns);
    CallsUpto(MsgsOf(xs));
    PlayMeans(Calls(MsgsOf(xs)), [], handler);
    assert [] + MsgsOf(xs) == MsgsOf(xs);
    PlayAppend(Calls(MsgsOf(xs)), Stops(EndOf(o, mem)), [], handler);
    PlayStops(EndOf(o, mem), MsgsOf(xs), handler);
  }

  lemma PlayStops(end: End, calls: seq<Msg>, handler: Handler)
    ensures Play(Stops(end), calls, handler) == Result(calls, end)
  {
  }

  // ---------------------------------------------------------- how a run ends

  /** How outcome `k` ends the run, if it gets there. */
  function EndAt(os: seq<Received>, mem: seq<Byte>, k: nat): End
    requires |mem| == BUFFER && AllSound(os) && k < |os|
  {
    EndOf(os[k], BufferAt(os, mem, k))
  }

  /** The first outcome that ends the run ends it in this way. */
  predicate FirstEnd(os: seq<Received>, mem: seq<Byte>, k: nat, end: End)
    requires |mem| == BUFFER && AllSound(os) && k < |os|
  {
    (forall i :: 0 <= i < k ==> EndAt(os, mem, i) == Waiting) && EndAt(os, mem, k) == end
  }

  /**
   In any run, of any datagrams: the listener exits on a remnant, sticks or reads beyond the buffer exactly when the
   handler answers none of the messages before with a negative number and the first outcome that ends the run
   ends it so.
  */
  lemma EndsIff(os: seq<Received>, mem: seq<Byte>, turns: nat, handler: Handler, end: End)
    requires |mem| == BUFFER && AllSound(os)
    requires end == Exited || end == Stuck || end == Beyond
    ensures var tape := Tape(os, mem, turns);
      Play(tape, [], handler).end == end
      <==> Quiet(Upto(tape), 0, |Upto(tape)|, handler) && exists k :: 0 <= k < |os| && FirstEnd(os, mem, k, end)
  {
    hide Play, Tape, Upto, FirstEnd;
    var tape := Tape(os, mem, turns);
    PlayMeans(tape, [], handler);
    assert [] + Upto(tape) == Upto(tape);
    VerdictIsFirst(os, mem, turns, end);
  }

  /** How a datagram that arrives ends a run: a framed one only by its remnant, uncut; any other sticks or leads
      beyond the buffer, unless some header read behind it leads back. */
  lemma EndOfDatagram(o: Received, mem: seq<Byte>)
    requires |mem| == BUFFER && Sound(o) && o.Datagram? && o.bytes != []
    ensures Framed(o.bytes)
      ==> EndOf(o, mem) == if o.truncated || Remnant(o.bytes) == [] then Waiting else Exited
    ensures !Framed(o.bytes)
      ==> (EndOf(o, mem) == Stuck || EndOf(o, mem) == Beyond <==> !ComesBack(Fill(mem, o.bytes), |o.bytes|))
  {
    hide TailOf, Framed, ComesBack, Remnant;
    var full := Fill(mem, o.bytes);
    assert full[..|o.bytes|] == o.bytes;
    StopsIff(full, |o.bytes|);
    if Framed(o.bytes) {
      FramedWalk(full, |o.bytes|, 0);
    }
  }

  lemma {:induction false} VerdictAppend(ms: seq<Msg>, rest: seq<Event>)
    ensures Verdict(Calls(ms) + rest) == Verdict(rest)
    decreases |ms|
  {
    if ms == [] {
      assert Calls(ms) + rest == rest;
    } else {
      assert (Calls(ms) + rest)[1..] == Calls(ms[1..]) + rest;
      VerdictAppend(ms[1..], rest);
    }
  }

  lemma FirstVerdict(o: Received, mem: seq<Byte>, turns: nat, rest: seq<Event>)
    requires |mem| == BUFFER && Sound(o)
    ensures Verdict(EventsOf(o, mem, turns) + rest) == if EndOf(o, mem) == Waiting then Verdict(rest) else EndOf(o, mem)
  {
    hide EndOf, MessagesIn;
    var stops, ms := Stops(EndOf(o, mem)), MessagesIn(o, mem, turns);
    Assoc(Calls(ms), stops, rest);
    VerdictAppend(ms, stops + rest);
    assert stops == [] ==> stops + rest == rest;
    assert stops != [] ==> (stops + rest)[0] == stops[0];
  }

  lemma ShiftEnd(os: seq<Received>, mem: seq<Byte>, k: nat, end: End)
    requires |mem| == BUFFER && AllSound(os) && k + 1 < |os| && EndOf(os[0], mem) == Waiting
    ensures FirstEnd(os, mem, k + 1, end) <==> FirstEnd(os[1..], Next(os[0], mem), k, end)
  {
    hide EndOf, Next;
    var rest, mem' := os[1..], Next(os[0], mem);
    assert forall i :: 0 <= i < |rest| ==> EndAt(rest, mem', i) == EndAt(os, mem, i + 1);
    assert EndAt(os, mem, 0) == Waiting;
    if FirstEnd(os, mem, k + 1, end) {
      forall i | 0 <= i < k ensures EndAt(rest, mem', i) == Waiting { assert EndAt(os, mem, i + 1) == Waiting; }
    }
    if FirstEnd(rest, mem', k, end) {
      forall i | 0 <= i < k + 1 ensures EndAt(os, mem, i) == Waiting {
        if i > 0 { assert EndAt(rest, mem', i - 1) == Waiting; }
      }
    }
  }

  lemma {:induction false} VerdictIsFirst(os: seq<Received>, mem: seq<Byte>, turns: nat, end: End)
    requires |mem| == BUFFER && AllSound(os) && end != Waiting
    ensures Verdict(Tape(os, mem, turns)) == end <==> exists k :: 0 <= k < |os| && FirstEnd(os, mem, k, end)
    decreases |os|
  {
    hide EndOf, Next, EventsOf;
    if os == [] {
    } else {
      var rest, mem' := os[1..], Next(os[0], mem);
      VerdictIsFirst(rest, mem', turns, end);
      FirstVerdict(os[0], mem, turns, Tape(rest, mem', turns));
      assert EndAt(os, mem, 0) == EndOf(os[0], mem);
      if EndOf(os[0], mem) == Waiting {
        forall k | 0 <= k < |rest| ensures FirstEnd(os, mem, k + 1, end) <==> FirstEnd(rest, mem', k, end) {
          ShiftEnd(os, mem, k, end);
        }
        assert !FirstEnd(os, mem, 0, end);
        if exists k :: 0 <= k < |os| && FirstEnd(os, mem, k, end) {
          var k :| 0 <= k < |os| && FirstEnd(os, mem, k, end);
          assert FirstEnd(rest, mem', k - 1, end);
        }
        if exists k :: 0 <= k < |rest| && FirstEnd(rest, mem', k, end) {
          var k :| 0 <= k < |rest| && FirstEnd(rest, mem', k, end);
          assert FirstEnd(os, mem, k + 1, end);
        }
      } else {
        assert FirstEnd(os, mem, 0, EndOf(os[0], mem));
      }
    }
  }
}
