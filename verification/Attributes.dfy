/** Runs of attributes: the headers the `rtattr_next` cursor inspects, on any bytes, and the
    encoding of an attribute list as netlink lays it out. */
module Attributes {
  import opened Bytes
  import opened Rtattr

  /** The headers a cursor inspects when it starts at `rta` with `buflen` bytes to go: it moves on while
      more than a bare header is left. */
  function Walk(mem: seq<Byte>, rta: nat, buflen: int): (offsets: seq<nat>)
    decreases if buflen > 0 then buflen else 0
  {
    if rta + HDR > |mem| then [rta]
    else
      var len := RtaLen(mem, rta);
      [rta] + if len != 0 && buflen - Padded(len) > HDR then Walk(mem, rta + Padded(len), buflen - Padded(len)) else []
  }

  // ------------------------------------------------------- arbitrary bytes

  predicate Inside(offset: nat, base: nat, buflen: int) {
    base <= offset <= base + buflen - HDR && (offset - base) % 4 == 0
  }

  /** Offsets that start at `base`, lie inside the region and are at least a header apart. */
  predicate Stays(w: seq<nat>, base: nat, buflen: int) {
    && w != [] && w[0] == base && |w| * HDR <= buflen
    && (forall i :: 0 <= i < |w| ==> Inside(w[i], base, buflen))
    && (forall i :: 0 <= i < |w| - 1 ==> w[i] + HDR <= w[i + 1])
  }

  lemma StaysCons(w: seq<nat>, base: nat, step: nat, tail: seq<nat>, buflen: int)
    requires w == [base] + tail && step >= HDR && step % 4 == 0 && Stays(tail, base + step, buflen - step)
    ensures Stays(w, base, buflen)
  {
    forall i | 0 <= i < |w| ensures Inside(w[i], base, buflen) {
      if i > 0 { assert Inside(tail[i - 1], base + step, buflen - step); }
    }
    forall i | 0 <= i < |w| - 1 ensures w[i] + HDR <= w[i + 1] {
      assert w[i + 1] == tail[i];
    }
  }

  /** The cursor at one header: on, while more than a bare header is left, or at its last. */
  lemma WalkOn(mem: seq<Byte>, rta: nat, buflen: int, step: nat, left: int)
    requires rta + HDR <= |mem| && step == Padded(RtaLen(mem, rta)) && left == buflen - step
    requires step != 0 && left > HDR
    ensures Walk(mem, rta, buflen) == [rta] + Walk(mem, rta + step, left)
  {
    hide RtaLen, Padded;
  }

  lemma WalkEnds(mem: seq<Byte>, rta: nat, buflen: int, step: nat)
    requires rta + HDR <= |mem| && step == Padded(RtaLen(mem, rta))
    requires step == 0 || buflen - step <= HDR
    ensures Walk(mem, rta, buflen) == [rta]
  {
    assert [rta] + [] == [rta];
  }

  lemma WalkHead(mem: seq<Byte>, rta: nat, buflen: int)
    ensures Walk(mem, rta, buflen) != [] && Walk(mem, rta, buflen)[0] == rta
  {
  }

  lemma StaysAlone(base: nat, buflen: int)
    requires HDR <= buflen
    ensures Stays([base], base, buflen)
  {
  }

  lemma {:induction false} WalkStays(mem: seq<Byte>, base: nat, buflen: int)
    requires HDR <= buflen && base + buflen <= |mem|
    ensures Stays(Walk(mem, base, buflen), base, buflen)
    decreases buflen
  {
    hide RtaLen, Padded, Walk;
    var step := Padded(RtaLen(mem, base));
    var left := buflen - step;
    if step != 0 && left > HDR {
      WalkStays(mem, base + step, left);
      WalkOn(mem, base, buflen, step, left);
      StaysCons(Walk(mem, base, buflen), base, step, Walk(mem, base + step, left), buflen);
    } else {
      WalkEnds(mem, base, buflen, step);
      StaysAlone(base, buflen);
    }
  }

  /** On any bytes, the headers inspected all lie inside the region exactly when the region can hold one. */
  lemma WalkInside(mem: seq<Byte>, base: nat, buflen: int)
    requires base + buflen <= |mem|
    ensures Stays(Walk(mem, base, buflen), base, buflen) <==> buflen >= HDR
  {
    if buflen >= HDR {
      WalkStays(mem, base, buflen);
    } else {
      assert Walk(mem, base, buflen)[0] == base && !Inside(base, base, buflen);
    }
  }

  // ------------------------------------------------- well-formed attributes

  datatype Attr = Attr(typ: nat, payload: seq<Byte>, pad: seq<Byte>)

  /** An attribute that fits its 16-bit fields and is padded to a multiple of four. */
  predicate Laid(a: Attr) {
    a.typ < 65536 && HDR + |a.payload| < 65536 && HDR + |a.payload| + |a.pad| == Padded(HDR + |a.payload|)
  }

  function EncAttr(a: Attr): (bytes: seq<Byte>)
    ensures |bytes| == HDR + |a.payload| + |a.pad|
  {
    Put(HDR + |a.payload|, 2) + Put(a.typ, 2) + a.payload + a.pad
  }

  function Enc(attrs: seq<Attr>): seq<Byte> {
    if attrs == [] then [] else EncAttr(attrs[0]) + Enc(attrs[1..])
  }

  predicate AllLaid(attrs: seq<Attr>) {
    forall i :: 0 <= i < |attrs| ==> Laid(attrs[i])
  }

  /** The bytes `enc` stand in memory at `base`. */
  predicate At(mem: seq<Byte>, base: nat, enc: seq<Byte>) {
    base + |enc| <= |mem| && mem[base..base + |enc|] == enc
  }

  lemma AtPart(mem: seq<Byte>, base: nat, enc: seq<Byte>, from: nat, to: nat)
    requires At(mem, base, enc) && from <= to <= |enc|
    ensures At(mem, base + from, enc[from..to])
  {
    var part := mem[base + from..base + to];
    forall k | 0 <= k < to - from ensures part[k] == enc[from..to][k] {
      assert mem[base..base + |enc|][from + k] == mem[base + from + k];
    }
    assert part == enc[from..to];
  }

  /** Memory holds attribute `a` at `o`: header fields and payload, whatever the padding. */
  predicate AttrIn(mem: seq<Byte>, o: nat, a: Attr) {
    && o + HDR + |a.payload| <= |mem|
    && RtaLen(mem, o) == HDR + |a.payload|
    && RtaType(mem, o) == a.typ
    && mem[o + HDR..o + HDR + |a.payload|] == a.payload
  }

  function Size(a: Attr): nat { Padded(HDR + |a.payload|) }

  /** Bytes taken by a list with all its padding, and without that of its last attribute. */
  function Total(attrs: seq<Attr>): nat {
    if attrs == [] then 0 else Size(attrs[0]) + Total(attrs[1..])
  }

  function Packed(attrs: seq<Attr>): nat {
    if attrs == [] then 0
    else if |attrs| == 1 then HDR + |attrs[0].payload|
    else Size(attrs[0]) + Packed(attrs[1..])
  }

  /** Memory holds the list at `base`, each attribute at the next multiple of four. */
  predicate ListIn(mem: seq<Byte>, base: nat, attrs: seq<Attr>)
    decreases |attrs|
  {
    attrs == [] || (AttrIn(mem, base, attrs[0]) && ListIn(mem, base + Size(attrs[0]), attrs[1..]))
  }

  /** An encoded attribute reads back. */
  lemma AttrAt(mem: seq<Byte>, o: nat, a: Attr)
    requires Laid(a) && At(mem, o, EncAttr(a))
    ensures AttrIn(mem, o, a) && |EncAttr(a)| == Size(a)
  {
    var enc := EncAttr(a);
    AtPart(mem, o, enc, 0, 2);
    AtPart(mem, o, enc, 2, 4);
    AtPart(mem, o, enc, HDR, HDR + |a.payload|);
    assert enc[0..2] == Put(HDR + |a.payload|, 2) && enc[2..4] == Put(a.typ, 2);
    assert enc[HDR..HDR + |a.payload|] == a.payload;
    assert Exp256(2) == 65536;
    WordAt(mem, o, HDR + |a.payload|, 2);
    WordAt(mem, o + 2, a.typ, 2);
    HalfIsWord(mem, o);
    HalfIsWord(mem, o + 2);
  }

  lemma AtConcat(mem: seq<Byte>, base: nat, first: seq<Byte>, rest: seq<Byte>)
    requires At(mem, base, first + rest)
    ensures At(mem, base, first) && At(mem, base + |first|, rest)
  {
    AtPart(mem, base, first + rest, 0, |first|);
    AtPart(mem, base, first + rest, |first|, |first| + |rest|);
    assert (first + rest)[0..|first|] == first && (first + rest)[|first|..|first| + |rest|] == rest;
  }

  lemma EncHead(mem: seq<Byte>, base: nat, a: Attr, rest: seq<Byte>)
    requires Laid(a) && At(mem, base, EncAttr(a) + rest)
    ensures AttrIn(mem, base, a) && At(mem, base + Size(a), rest) && |EncAttr(a)| == Size(a)
  {
    AtConcat(mem, base, EncAttr(a), rest);
    AttrAt(mem, base, a);
  }

  lemma {:induction false} EncLen(attrs: seq<Attr>)
    requires AllLaid(attrs)
    ensures |Enc(attrs)| == Total(attrs)
    decreases |attrs|
  {
    if attrs == [] {
    } else {
      assert Laid(attrs[0]);
      EncLen(attrs[1..]);
    }
  }

  lemma ListCons(mem: seq<Byte>, base: nat, attrs: seq<Attr>)
    requires attrs != [] && AttrIn(mem, base, attrs[0])
    ensures ListIn(mem, base, attrs) == ListIn(mem, base + Size(attrs[0]), attrs[1..])
  {
  }

  /** An encoded list reads back. */
  lemma {:induction false} EncIn(mem: seq<Byte>, base: nat, attrs: seq<Attr>)
    requires AllLaid(attrs) && At(mem, base, Enc(attrs))
    ensures ListIn(mem, base, attrs)
    decreases |attrs|
  {
    hide RtaLen, Padded, AttrIn, EncAttr;
    if attrs == [] {
    } else {
      assert Laid(attrs[0]);
      EncHead(mem, base, attrs[0], Enc(attrs[1..]));
      EncIn(mem, base + Size(attrs[0]), attrs[1..]);
      ListCons(mem, base, attrs);
    }
  }

  /** A non-empty list takes at least a header, and exactly one only if it is a single bare header. */
  lemma {:induction false} ListSizes(attrs: seq<Attr>)
    requires attrs != []
    ensures HDR <= Packed(attrs) <= Total(attrs) < Packed(attrs) + 4
    ensures Packed(attrs) <= HDR ==> |attrs| == 1 && attrs[0].payload == []
    decreases |attrs|
  {
    if |attrs| == 1 {
    } else {
      ListSizes(attrs[1..]);
    }
  }

  /** One step of the cursor over an attribute: on to `next` while more than a bare header is left. */
  lemma WalkAttr(mem: seq<Byte>, base: nat, a: Attr, buflen: int, next: nat, left: int)
    requires AttrIn(mem, base, a) && next == base + Size(a) && left == buflen - Size(a)
    ensures left > HDR ==> Walk(mem, base, buflen) == [base] + Walk(mem, next, left)
    ensures left <= HDR ==> Walk(mem, base, buflen) == [base]
  {
    hide RtaLen, Padded, Walk;
    assert Size(a) == Padded(RtaLen(mem, base)) && Size(a) >= HDR;
    if left > HDR {
      WalkOn(mem, base, buflen, Size(a), left);
    } else {
      WalkEnds(mem, base, buflen, Size(a));
    }
  }
}
