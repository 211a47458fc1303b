/** The second attribute walker, `RTA_OK`/`RTA_NEXT` as yalin/yalin/dump.h uses them, and where the two agree. */
module Walkers {
  import opened Bytes
  import opened Words
  import opened Rtattr
  import opened Attributes

  /** Offset of the attributes in an address message: two aligned headers of 16 and 8 bytes. */
  const IFA_SPACE: nat := 24

  /** The headers whose attributes the loop prints, and whether it ran out of the memory. */
  datatype Trace = Trace(visited: seq<nat>, overrun: bool)

  function Then(offsets: seq<nat>, t: Trace): Trace {
    Trace(offsets + t.visited, t.overrun)
  }

  /** The loop over `RTA_OK` and `RTA_NEXT`; the remaining length is an unsigned word and may wrap. */
  function OkWalk(mem: seq<Byte>, rta: nat, len: nat): Trace
    decreases if rta < |mem| then |mem| - rta else 0
  {
    if len < HDR then Trace([], false)
    else if rta + HDR > |mem| then Trace([], true)
    else
      var l := RtaLen(mem, rta);
      if l < HDR || l > len then Trace([], false)
      else Then([rta], OkWalk(mem, rta + Padded(l), Wrap64(len - Padded(l))))
  }

  /** Where the headers of a list stand. */
  function Offsets(attrs: seq<Attr>, base: nat): (offsets: seq<nat>)
    ensures |offsets| == |attrs|
  {
    if attrs == [] then [] else [base] + Offsets(attrs[1..], base + Size(attrs[0]))
  }

  /** A last attribute without payload, behind at least one other. */
  predicate BareLast(attrs: seq<Attr>) {
    |attrs| >= 2 && attrs[|attrs| - 1].payload == []
  }

  /** One attribute of the macro loop. */
  lemma OkWalkAttr(mem: seq<Byte>, base: nat, a: Attr, len: nat)
    requires AttrIn(mem, base, a) && HDR + |a.payload| <= len
    ensures OkWalk(mem, base, len) == Then([base], OkWalk(mem, base + Size(a), Wrap64(len - Size(a))))
  {
  }

  /** The attribute, and what comes of the rest. */
  lemma OkWalkMore(mem: seq<Byte>, base: nat, a: Attr, len: nat, rest: seq<nat>, end: Trace)
    requires AttrIn(mem, base, a) && HDR + |a.payload| <= len < TWO64
    requires OkWalk(mem, base + Size(a), Wrap64(len - Size(a))) == Then(rest, end)
    ensures OkWalk(mem, base, len) == Then([base] + rest, end)
  {
    OkWalkAttr(mem, base, a, len);
    ThenThen([base], rest, end);
  }

  lemma ThenThen(a: seq<nat>, b: seq<nat>, t: Trace)
    ensures Then(a, Then(b, t)) == Then(a + b, t)
  {
    assert a + (b + t.visited) == (a + b) + t.visited;
  }

  /** Over a list the macro loop prints every attribute in order; what it prints beyond is `end`. */
  lemma {:induction false} OkWalkList(mem: seq<Byte>, base: nat, attrs: seq<Attr>, len: nat, end: Trace)
    requires attrs != [] && ListIn(mem, base, attrs) && len < TWO64 && Packed(attrs) <= len <= Total(attrs)
    requires end == OkWalk(mem, base + Total(attrs), Wrap64(len - Total(attrs)))
    ensures OkWalk(mem, base, len) == Then(Offsets(attrs, base), end)
    decreases |attrs|
  {
    hide OkWalk, AttrIn, RtaLen, Padded;
    var a, rest, next := attrs[0], attrs[1..], base + Size(attrs[0]);
    OffsetsCons(attrs, base);
    var left := len - Size(a);
    if rest == [] {
      OkWalkMore(mem, base, a, len, [], end);
    } else {
      ListSizes(rest);
      NoWrap(left);
      OkWalkList(mem, next, rest, left, end);
      OkWalkMore(mem, base, a, len, Offsets(rest, next), end);
    }
  }

  /** A walk that visits exactly what is in front of it adds nothing. */
  lemma ThenNothing(offsets: seq<nat>, end: Trace)
    ensures Then(offsets, end) == Trace(offsets, false) <==> end == Trace([], false)
  {
    assert offsets + [] == offsets;
    assert |offsets + end.visited| == |offsets| + |end.visited|;
  }

  /** A remaining length that wrapped is never too short for a header or an attribute. */
  lemma Underflow(missing: nat)
    requires 0 < missing < 4
    ensures Wrap64(0 - missing) >= 65536
  {
    ModUnique(0 - missing, TWO64, -1, TWO64 - missing);
  }

  /** With a wrapped length only a length field below a header's own ends the walk at once. */
  lemma OkWalkStops(mem: seq<Byte>, rta: nat, len: nat)
    requires len >= 65536
    ensures OkWalk(mem, rta, len) == Trace([], false) <==> rta + HDR <= |mem| && RtaLen(mem, rta) < HDR
  {
  }

  /**
   If the length leaves out some of the last padding, the remaining length wraps behind the list. The loop
   prints exactly the list if and only if the length counts the padding, or the bytes behind the list
   happen to hold a length no attribute can have.
  */
  lemma OkWalkExactIff(mem: seq<Byte>, base: nat, attrs: seq<Attr>, len: nat)
    requires attrs != [] && ListIn(mem, base, attrs) && len < TWO64 && Packed(attrs) <= len <= Total(attrs)
    ensures OkWalk(mem, base, len) == Trace(Offsets(attrs, base), false)
       <==> len == Total(attrs)
            || (base + Total(attrs) + HDR <= |mem| && RtaLen(mem, base + Total(attrs)) < HDR)
  {
    hide OkWalk, RtaLen, ListIn, Packed, Total, Offsets;
    var behind, missing := base + Total(attrs), Total(attrs) - len;
    var end := OkWalk(mem, behind, Wrap64(len - Total(attrs)));
    OkWalkList(mem, base, attrs, len, end);
    ThenNothing(Offsets(attrs, base), end);
    if missing == 0 {
      NoWrap(0);
      OkWalkEmpty(mem, behind);
    } else {
      ListSizes(attrs);
      Underflow(missing);
      OkWalkStops(mem, behind, Wrap64(len - Total(attrs)));
    }
  }

  lemma OkWalkEmpty(mem: seq<Byte>, rta: nat)
    ensures OkWalk(mem, rta, 0) == Trace([], false)
  {
  }

  /** One attribute with a one-byte payload whose length leaves out its padding, and four bytes behind it that read
      as a header: the loop prints that header too, and runs on out of the memory. */
  lemma OkWalkStrays()
    ensures var a := Attr(1, [7], [0, 0, 0]);
      && Laid(a) && OkWalk(EncAttr(a) + [4, 0, 9, 0], 0, 5) == Trace([0, 8], true)
  {
    var a := Attr(1, [7], [0, 0, 0]);
    var mem := EncAttr(a) + [4, 0, 9, 0];
    assert Put(5, 2) == [5, 0] && Put(1, 2) == [1, 0] by {
      assert Put(5 / 256, 1) == [0] && Put(1 / 256, 1) == [0];
    }
    assert mem == [5, 0, 1, 0, 7, 0, 0, 0, 4, 0, 9, 0];
    assert RtaLen(mem, 0) == 5 && RtaLen(mem, 8) == 4;
    Underflow(3);
    var wrapped := Wrap64(0 - 3);
    var left := Wrap64(wrapped - 4);
    assert left >= HDR by { LeftOver(wrapped); }
    assert OkWalk(mem, 12, left) == Trace([], true);
    assert OkWalk(mem, 8, wrapped) == Then([8], OkWalk(mem, 12, left)) == Trace([8], true);
    assert OkWalk(mem, 0, 5) == Then([0], OkWalk(mem, 8, wrapped));
  }

  lemma LeftOver(len: nat)
    requires 65536 <= len < TWO64
    ensures Wrap64(len - 4) >= HDR
  {
    NoWrap(len - 4);
  }

  lemma OffsetsCons(attrs: seq<Attr>, base: nat)
    requires attrs != []
    ensures Offsets(attrs, base) == [base] + Offsets(attrs[1..], base + Size(attrs[0]))
  {
  }

  lemma NoWrap(n: nat)
    requires n < TWO64
    ensures Wrap64(n) == n
  {
    ModUnique(n, TWO64, 0, n);
  }

  /** Over a list the `rtattr_next` cursor inspects every attribute in order, except a bare last one
      behind others. */
  lemma {:induction false} CursorList(mem: seq<Byte>, base: nat, attrs: seq<Attr>)
    requires attrs != [] && ListIn(mem, base, attrs)
    ensures Walk(mem, base, Total(attrs)) == Offsets(Shown(attrs), base)
    decreases |attrs|
  {
    hide Walk, AttrIn, RtaLen, Padded;
    var a, rest := attrs[0], attrs[1..];
    WalkAttr(mem, base, a, Total(attrs), base + Size(a), Total(rest));
    if rest == [] {
      assert Offsets(attrs, base) == [base];
    } else {
      ListSizes(rest);
      ShownTail(attrs);
      if Total(rest) > HDR {
        CursorList(mem, base + Size(a), rest);
      } else {
        assert Offsets([a], base) == [base];
      }
    }
  }

  /** The attributes the cursor reaches. */
  function Shown(attrs: seq<Attr>): seq<Attr> {
    if BareLast(attrs) then attrs[..|attrs| - 1] else attrs
  }

  lemma ShownTail(attrs: seq<Attr>)
    requires |attrs| >= 2
    ensures var rest := attrs[1..];
      Shown(attrs) == if Total(rest) > HDR then [attrs[0]] + Shown(rest) else [attrs[0]]
  {
    var rest := attrs[1..];
    ListSizes(rest);
    assert rest[|rest| - 1] == attrs[|attrs| - 1];
    if |rest| >= 2 { ListSizes(rest[1..]); }
  }

  /** On a padded list the two walkers visit the same attributes in the same order exactly when the
      list is not empty and does not end in a bare header behind other attributes. */
  lemma SameWalkIff(mem: seq<Byte>, base: nat, attrs: seq<Attr>)
    requires ListIn(mem, base, attrs) && Total(attrs) < TWO64
    ensures OkWalk(mem, base, Total(attrs)) == Trace(Offsets(attrs, base), false)
    ensures Walk(mem, base, Total(attrs)) == OkWalk(mem, base, Total(attrs)).visited
       <==> attrs != [] && !BareLast(attrs)
  {
    OkWalkWhole(mem, base, attrs);
    if attrs == [] {
      assert Walk(mem, base, 0)[0] == base;
    } else {
      CursorList(mem, base, attrs);
      ShownOffsets(attrs, base);
    }
  }

  lemma OkWalkWhole(mem: seq<Byte>, base: nat, attrs: seq<Attr>)
    requires ListIn(mem, base, attrs) && Total(attrs) < TWO64
    ensures OkWalk(mem, base, Total(attrs)) == Trace(Offsets(attrs, base), false)
  {
    if attrs != [] {
      ListSizes(attrs);
      var end := OkWalk(mem, base + Total(attrs), 0);
      OkWalkList(mem, base, attrs, Total(attrs), end);
      assert end == Trace([], false) && Offsets(attrs, base) + [] == Offsets(attrs, base);
    }
  }

  lemma ShownOffsets(attrs: seq<Attr>, base: nat)
    ensures Offsets(Shown(attrs), base) == Offsets(attrs, base) <==> !BareLast(attrs)
  {
    assert |Offsets(Shown(attrs), base)| == |Shown(attrs)|;
  }

  /** What the loop makes of the address message at `hdr`. */
  function AddrMsgTrace(mem: seq<Byte>, hdr: nat): Trace
    requires hdr + IFA_SPACE <= |mem|
  {
    OkWalk(mem, hdr + IFA_SPACE, Wrap64(Word(mem, hdr, 4) - IFA_SPACE))
  }

  /** `netlink_addr_msg_dump`: the attributes of an address message. */
  method AddrMsgAttrs(mem: seq<Byte>, hdr: nat) returns (visited: seq<nat>, overrun: bool)
    requires hdr + IFA_SPACE <= |mem|
    ensures Trace(visited, overrun) == AddrMsgTrace(mem, hdr)
  {
    visited, overrun := [], false;
    var rtaLen: nat := Wrap64(Word(mem, hdr, 4) - IFA_SPACE);
    var rta := hdr + IFA_SPACE;
    ghost var goal := OkWalk(mem, rta, rtaLen);
    while rtaLen >= HDR
      invariant 0 <= rtaLen < TWO64
      invariant goal == Then(visited, OkWalk(mem, rta, rtaLen))
      decreases |mem| - rta
    {
      if rta + HDR > |mem| {
        overrun := true;
        return;
      }
      var l := RtaLen(mem, rta);
      if l < HDR || l > rtaLen { break; }
      assert visited + ([rta] + OkWalk(mem, rta + Padded(l), Wrap64(rtaLen - Padded(l))).visited)
          == (visited + [rta]) + OkWalk(mem, rta + Padded(l), Wrap64(rtaLen - Padded(l))).visited;
      visited := visited + [rta];
      rtaLen, rta := Wrap64(rtaLen - Padded(l)), rta + Padded(l);
    }
  }

  /** An address message of sixteen and eight header bytes and a padded list, which its length field covers, has
      all its attributes printed. */
  lemma AddrMsgPrintsAll(mem: seq<Byte>, hdr: nat, head: seq<Byte>, addr: seq<Byte>, attrs: seq<Attr>)
    requires |head| == 16 && |addr| == 8 && AllLaid(attrs) && At(mem, hdr, head + addr + Enc(attrs))
    requires Word(head, 0, 4) == 16 + 8 + |Enc(attrs)| < TWO64
    ensures hdr + 24 <= |mem| && AddrMsgTrace(mem, hdr) == Trace(Offsets(attrs, hdr + 24), false)
  {
    hide OkWalk, Enc, ListIn, Word;
    AtConcat(mem, hdr, head + addr, Enc(attrs));
    AtConcat(mem, hdr, head, addr);
    assert mem[hdr..hdr + 4] == mem[hdr..hdr + 16][0..4] == head[0..4];
    WordFrame(mem, hdr, head, 0, 4);
    EncIn(mem, hdr + 24, attrs);
    EncLen(attrs);
    NoWrap(|Enc(attrs)|);
    OkWalkWhole(mem, hdr + 24, attrs);
  }
}
