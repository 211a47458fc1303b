/** What the inner loop of `netlink_listen` makes of any datagram, framed or not. */
module ListenWalk {
  import opened Bytes
  import opened Words
  import opened Sequences
  import opened Rtattr
  import opened Listen

  // -------------------------------------------------------- framed datagrams

  /** The messages of a framed datagram. */
  function FramedMessages(b: seq<Byte>): seq<Msg>
    requires Framed(b)
    decreases |b|
  {
    if |b| < NLMSG_HDR then [] else [b[..MsgLen(b)]] + FramedMessages(b[Padded(MsgLen(b))..])
  }

  /** What is left behind the last of them. */
  function Remnant(b: seq<Byte>): seq<Byte>
    requires Framed(b)
    decreases |b|
  {
    if |b| < NLMSG_HDR then b else Remnant(b[Padded(MsgLen(b))..])
  }

  lemma FramedStep(b: seq<Byte>)
    requires Framed(b) && |b| >= NLMSG_HDR
    ensures var len := MsgLen(b);
      && 0 < len <= |b| && Padded(len) <= |b| && Framed(b[Padded(len)..])
      && FramedMessages(b) == [b[..len]] + FramedMessages(b[Padded(len)..])
      && Remnant(b) == Remnant(b[Padded(len)..])
  {
    hide MsgLen, Padded;
  }

  lemma SameLength(rest: seq<Byte>, n: nat)
    requires NLMSG_HDR <= n <= |rest|
    ensures MsgLen(rest[..n]) == MsgLen(rest) < TWO32
  {
    assert rest[..n][0..4] == rest[0..4];
    WordFrame(rest[..n], 0, rest, 0, 4);
    LengthIsWord(rest);
  }

  lemma ShortWalk(rest: seq<Byte>, status: nat, turns: nat)
    requires status <= |rest| && status < NLMSG_HDR && !GoesOn(status)
    ensures Framed(rest[..status]) && Messages(rest, status, turns) == FramedMessages(rest[..status]) == []
    ensures TailOf(rest, status) == Left(|Remnant(rest[..status])|) && Remnant(rest[..status]) == rest[..status]
  {
  }

  /** In a buffer that starts with a framed datagram the loop sees its messages and stops with its remnant, whatever
      the buffer holds behind it. */
  lemma {:induction false} FramedWalk(rest: seq<Byte>, status: nat, turns: nat)
    requires status <= |rest| <= BUFFER && Framed(rest[..status])
    ensures Messages(rest, status, turns) == FramedMessages(rest[..status])
    ensures TailOf(rest, status) == Left(|Remnant(rest[..status])|)
    ensures |Remnant(rest[..status])| < NLMSG_HDR
    decreases status
  {
    hide GoesOn, After, MsgLen, Padded, Step, Messages, TailOf, Framed, FramedMessages, Remnant;
    var b := rest[..status];
    GoesOnIff(status);
    if status < NLMSG_HDR {
      ShortWalk(rest, status, turns);
    } else {
      SameLength(rest, status);
      var len := MsgLen(rest);
      FramedStep(b);
      StepIsPadded(len);
      AfterStep(status, len);
      MessagesStep(rest, status, turns);
      TailStep(rest, status);
      assert rest[Padded(len)..][..status - Padded(len)] == b[Padded(len)..];
      FramedWalk(rest[Padded(len)..], status - Padded(len), turns);
      assert b[..len] == rest[..len];
    }
  }

  // ------------------------------------------------------------ any datagram

  /** Behind the bytes received, a length that as a signed number is negative and leads back to their end. */
  predicate LeadsBack(status: int, len: nat) {
    status < 0 && 0 <= After(status, len) < NLMSG_HDR
  }

  /** Which lengths these are: the top few, by how far the cursor has strayed. */
  lemma LeadsBackIff(status: int, len: nat)
    requires 0 < -status <= BUFFER && len < TWO32
    ensures LeadsBack(status, len) <==> TWO32 - NLMSG_HDR < Step(len) - status <= TWO32
  {
    var step := Step(len);
    StepIsPadded(len);
    if status - step >= -TWO32 {
      ModUnique(status - step, TWO32, -1, status - step + TWO32);
    } else {
      ModUnique(status - step, TWO32, -2, status - step + 2 * TWO32);
    }
  }

  /** Some header the loop reads behind the bytes received leads back. */
  predicate ComesBack(rest: seq<Byte>, status: int)
    decreases |rest|
  {
    && GoesOn(status) && |rest| >= NLMSG_HDR
    && (var len := MsgLen(rest);
        LeadsBack(status, len) || (Step(len) != 0 && ComesBack(Ahead(rest, Step(len)), After(status, len))))
  }

  /** The loop has strayed: it goes on, behind the bytes received or beyond the buffer. */
  predicate Astray(rest: seq<Byte>, status: int) {
    Int32(status) && GoesOn(status) && |rest| <= BUFFER && (|rest| < NLMSG_HDR || |rest| - BUFFER <= status < 0)
  }

  /** A step from behind the bytes received leads back, sticks or stays astray. */
  lemma AstrayStep(rest: seq<Byte>, status: int)
    requires Astray(rest, status) && |rest| >= NLMSG_HDR && Step(MsgLen(rest)) != 0
    ensures var len := MsgLen(rest);
      if LeadsBack(status, len) then !GoesOn(After(status, len))
      else Astray(Ahead(rest, Step(len)), After(status, len))
  {
    hide MsgLen, Step, GoesOn, After;
    var len := MsgLen(rest);
    LengthIsWord(rest);
    AfterStep(status, len);
    GoesOnIff(After(status, len));
  }

  lemma {:induction false} StrayedStopsIff(rest: seq<Byte>, status: int)
    requires Astray(rest, status)
    ensures TailOf(rest, status).Left? <==> ComesBack(rest, status)
    decreases |rest|
  {
    hide MsgLen, Step, GoesOn, After;
    if |rest| < NLMSG_HDR || Step(MsgLen(rest)) == 0 {
      if |rest| >= NLMSG_HDR {
        LengthIsWord(rest);
        AfterStep(status, MsgLen(rest));
      }
    } else {
      var len := MsgLen(rest);
      AstrayStep(rest, status);
      if !LeadsBack(status, len) {
        StrayedStopsIff(Ahead(rest, Step(len)), After(status, len));
      }
    }
  }

  /** A message longer than what was received makes the loop stray: the status that results makes it go on. */
  lemma GoesAstray(rest: seq<Byte>, status: nat)
    requires NLMSG_HDR <= status <= |rest| <= BUFFER && Step(MsgLen(rest)) > status
    ensures var len := MsgLen(rest); Astray(Ahead(rest, Step(len)), After(status, len))
  {
    hide MsgLen, GoesOn;
    var len := MsgLen(rest);
    var step, next := Step(len), After(status, len);
    LengthIsWord(rest);
    StepIsPadded(len);
    ModUnique(status - step, TWO32, -1, status - step + TWO32);
    GoesOnIff(next);
  }

  /**
   On any bytes: the loop leaves a datagram by itself exactly when it is framed, or when, having strayed
   behind it, it reads a header there that leads back. Otherwise it sticks or runs over the buffer.
  */
  lemma {:induction false} StopsIff(rest: seq<Byte>, status: nat)
    requires status <= |rest| <= BUFFER
    ensures TailOf(rest, status).Left? <==> Framed(rest[..status]) || ComesBack(rest, status)
    decreases |rest|
  {
    GoesOnIff(status);
    if status < NLMSG_HDR {
    } else {
      hide MsgLen, Step, GoesOn, After, Padded;
      var b, len := rest[..status], MsgLen(rest);
      SameLength(rest, status);
      StepIsPadded(len);
      AfterStep(status, len);
      if Step(len) == 0 {
      } else if Step(len) <= status {
        var tail := rest[Step(len)..];
        assert tail[..status - Step(len)] == b[Step(len)..];
        StopsIff(tail, status - Step(len));
      } else {
        GoesAstray(rest, status);
        StrayedStopsIff(Ahead(rest, Step(len)), After(status, len));
      }
    }
  }

  /** A header that announces 32 bytes, and 32 bytes further on one whose length leads back by 16. */
  function LeadingBack(): (mem: seq<Byte>)
    ensures |mem| == BUFFER
  {
    Put(32, 4) + seq(28, _ => 0) + Put(TWO32 - 16, 4) + seq(BUFFER - 36, _ => 0)
  }

  /** With sixteen bytes of it received the datagram is not framed, and yet the loop leaves it. */
  lemma LeadingBackStops()
    ensures TailOf(LeadingBack(), NLMSG_HDR) == Left(0) && !Framed(LeadingBack()[..NLMSG_HDR])
  {
    hide LeadingBack, Step, After, GoesOn, MsgLen;
    var mem := LeadingBack();
    LeadingBackLengths();
    SameLength(mem, NLMSG_HDR);
    StepIsPadded(32);
    StepIsPadded(TWO32 - 16);
    AfterStep(NLMSG_HDR, 32);
    GoesOnIff(NLMSG_HDR);
    GoesOnIff(-16);
    GoesOnIff(0);
    BackToZero();
    TailStep(mem, NLMSG_HDR);
    TailStep(mem[32..], -16);
    NotOn(Ahead(mem[32..], TWO32 - 16), 0);
  }

  lemma BackToZero()
    ensures After(-16, TWO32 - 16) == 0
  {
    StepIsPadded(TWO32 - 16);
    ModUnique(-TWO32, TWO32, -1, 0);
  }

  lemma LeadingBackLengths()
    ensures MsgLen(LeadingBack()) == 32 && MsgLen(LeadingBack()[32..]) == TWO32 - 16
  {
    var mem, last := LeadingBack(), TWO32 - 16;
    assert Exp256(4) == TWO32 by { assert Exp256(2) == 65536; }
    assert mem[0..4] == Put(32, 4) && mem[32..][0..4] == Put(last, 4);
    WordAt(mem, 0, 32, 4);
    WordAt(mem[32..], 0, last, 4);
  }

  // ---------------------------------------------------------- sticking

  function Repeat(m: Msg, k: nat): (ms: seq<Msg>)
    ensures |ms| == k
  {
    seq(k, _ => m)
  }

  lemma RepeatMore(m: Msg, k: nat)
    ensures Repeat(m, k + 1) == [m] + Repeat(m, k)
  {
  }

  lemma {:induction false} SameAgain(rest: seq<Byte>, status: int, turns: nat)
    requires GoesOn(status) && |rest| >= NLMSG_HDR && Step(MsgLen(rest)) == 0
    ensures Messages(rest, status, turns) == [Given(rest)] + Repeat(Given(rest), turns)
    decreases turns
  {
    hide MsgLen, Step, GoesOn, Given;
    if turns == 0 {
    } else {
      SameAgain(rest, status, turns - 1);
      RepeatMore(Given(rest), turns - 1);
    }
  }

  /** The message a walk ends with, which is the one it sticks on if it does. */
  function LastOf(ms: seq<Msg>): Msg
    requires ms != []
  {
    ms[|ms| - 1]
  }

  /** Watched for longer, a loop that sticks hands over its last message that many times more; any other hands over the
      same messages. */
  lemma {:induction false} TurnsRepeat(rest: seq<Byte>, status: int, turns: nat)
    ensures var ms := Messages(rest, status, 0);
      if TailOf(rest, status) == Sticks then ms != [] && Messages(rest, status, turns) == ms + Repeat(LastOf(ms), turns)
      else Messages(rest, status, turns) == ms
    decreases |rest|
  {
    hide MsgLen, GoesOn, After, Given;
    if !GoesOn(status) || |rest| < NLMSG_HDR {
    } else if Step(MsgLen(rest)) == 0 {
      SameAgain(rest, status, turns);
      assert [Given(rest)] + [] == [Given(rest)];
    } else {
      var len := MsgLen(rest);
      TurnsRepeat(Ahead(rest, Step(len)), After(status, len), turns);
      var ms, more := Messages(rest, status, 0), Messages(Ahead(rest, Step(len)), After(status, len), 0);
      assert ms == [Given(rest)] + more;
      if TailOf(rest, status) == Sticks {
        Assoc([Given(rest)], more, Repeat(LastOf(more), turns));
      }
    }
  }

  /** All the calls of a loop that sticks, with `k` repeats of its last message, when nothing stops it. */
  function Repeated(calls: seq<Msg>, ms: seq<Msg>, k: nat): seq<Msg>
    requires ms != []
  {
    calls + ms + Repeat(LastOf(ms), k)
  }

  lemma StuckPrefix(calls: seq<Msg>, ms: seq<Msg>, j: nat, k: nat)
    requires ms != [] && j <= k
    ensures Repeated(calls, ms, k)[..|calls| + |ms| + j] == Repeated(calls, ms, j)
  {
  }

  /** When a stuck loop is watched for `turns` repeats, these are the calls it would make. */
  lemma StuckPlays(rest: seq<Byte>, status: int, turns: nat, calls: seq<Msg>, handler: Handler)
    requires TailOf(rest, status) == Sticks
    ensures Messages(rest, status, 0) != []
    ensures var all, r := Repeated(calls, Messages(rest, status, 0), turns), PlayRest(rest, status, turns, calls, handler);
      && r.calls <= all && |calls| <= |r.calls|
      && (if Quiet(all, |calls|, |all|, handler) then r == Result(all, Waiting)
          else |r.calls| > |calls| && Quiet(all, |calls|, |r.calls| - 1, handler)
               && handler(r.calls) < 0 && r.end == Returned(handler(r.calls)))
  {
    hide TailOf, Messages, Play;
    TurnsRepeat(rest, status, turns);
    var ms := Messages(rest, status, 0);
    CallsUpto(Messages(rest, status, turns));
    PlayMeans(Calls(Messages(rest, status, turns)), calls, handler);
    Assoc(calls, ms, Repeat(LastOf(ms), turns));
  }

  /**
   A loop that sticks returns at the first repeat the handler answers with a negative number, if it has answered none
   of the messages before so: for however long the run is watched beyond that.
  */
  lemma StuckReturns(rest: seq<Byte>, status: int, turns: nat, calls: seq<Msg>, handler: Handler, k: nat)
    requires TailOf(rest, status) == Sticks && k <= turns
    requires Messages(rest, status, 0) != []
    requires var all := Repeated(calls, Messages(rest, status, 0), k);
      |calls| < |all| && Quiet(all, |calls|, |all| - 1, handler) && handler(all) < 0
    ensures var all := Repeated(calls, Messages(rest, status, 0), k);
      PlayRest(rest, status, turns, calls, handler) == Result(all, Returned(handler(all)))
  {
    hide TailOf, Messages, PlayRest, Repeated;
    var ms := Messages(rest, status, 0);
    var all, longer := Repeated(calls, ms, k), Repeated(calls, ms, turns);
    StuckPlays(rest, status, turns, calls, handler);
    StuckLength(calls, ms, k);
    StuckLength(calls, ms, turns);
    StuckPrefix(calls, ms, k, turns);
    assert longer[..|all|] == all;
    var r := PlayRest(rest, status, turns, calls, handler);
    assert r.calls == longer[..|r.calls|];
    forall j | |calls| < j < |all| ensures handler(longer[..j]) >= 0 {
      assert longer[..j] == all[..j];
    }
    assert !(|r.calls| < |all|) && !(|r.calls| > |all|);
  }

  lemma StuckLength(calls: seq<Msg>, ms: seq<Msg>, k: nat)
    requires ms != []
    ensures |Repeated(calls, ms, k)| == |calls| + |ms| + k
  {
  }

  /** A loop that sticks never ends exactly when the handler answers neither a message before nor any repeat with a
      negative number. */
  lemma StuckForEverIff(rest: seq<Byte>, status: int, calls: seq<Msg>, handler: Handler)
    requires TailOf(rest, status) == Sticks
    ensures Messages(rest, status, 0) != []
    ensures var ms := Messages(rest, status, 0);
      (forall turns: nat :: PlayRest(rest, status, turns, calls, handler).end == Waiting)
      <==> Quiet(calls + ms, |calls|, |calls + ms|, handler) && forall k: nat :: handler(Repeated(calls, ms, k)) >= 0
  {
    hide TailOf, Messages, PlayRest, Repeated;
    StuckPlays(rest, status, 0, calls, handler);
    var ms := Messages(rest, status, 0);
    if forall turns: nat :: PlayRest(rest, status, turns, calls, handler).end == Waiting {
      forall k: nat ensures handler(Repeated(calls, ms, k)) >= 0 {
        StuckPlays(rest, status, k, calls, handler);
        var all := Repeated(calls, ms, k);
        StuckLength(calls, ms, k);
        assert PlayRest(rest, status, k, calls, handler).end == Waiting;
        assert all[..|all|] == all;
      }
      StuckNone(calls, ms);
    }
    if Quiet(calls + ms, |calls|, |calls + ms|, handler) && forall k: nat :: handler(Repeated(calls, ms, k)) >= 0 {
      forall turns: nat ensures PlayRest(rest, status, turns, calls, handler).end == Waiting {
        StuckPlays(rest, status, turns, calls, handler);
        StuckQuiet(calls, ms, turns, handler);
      }
    }
  }

  lemma StuckNone(calls: seq<Msg>, ms: seq<Msg>)
    requires ms != []
    ensures Repeated(calls, ms, 0) == calls + ms
  {
  }

  lemma StuckQuiet(calls: seq<Msg>, ms: seq<Msg>, turns: nat, handler: Handler)
    requires ms != [] && Quiet(calls + ms, |calls|, |calls + ms|, handler)
    requires forall k: nat :: handler(Repeated(calls, ms, k)) >= 0
    ensures var all := Repeated(calls, ms, turns); Quiet(all, |calls|, |all|, handler)
  {
    hide Repeated;
    var all := Repeated(calls, ms, turns);
    StuckLength(calls, ms, turns);
    StuckNone(calls, ms);
    StuckPrefix(calls, ms, 0, turns);
    forall k | |calls| < k <= |all| ensures handler(all[..k]) >= 0 {
      if k <= |calls + ms| {
        assert all[..k] == (calls + ms)[..k];
      } else {
        StuckPrefix(calls, ms, k - |calls + ms|, turns);
      }
    }
  }
}
