/**
 Decoding of an IFLA_LINKINFO attribute (`rta_to_str_IFLA_LINKINFO`): the kind string,
 the step to the vlan data and the loop over the nested attributes.

 Memory is a sequence of bytes; a read past its end is the outcome `Overrun`.
*/
module LinkInfo {
  import opened Bytes
  import opened Words
  import opened Rtattr
  import opened Attributes

  const IFLA_LINKINFO: nat := 18
  const IFLA_INFO_KIND: nat := 1
  const IFLA_INFO_DATA: nat := 2
  const IFLA_VLAN_ID: nat := 1
  const IFLA_VLAN_FLAGS: nat := 2
  const IFLA_VLAN_PROTOCOL: nat := 5
  const STRBUF: nat := 100
  const VLAN: seq<Byte> := [0x76, 0x6c, 0x61, 0x6e]

  datatype VlanInfo = VlanInfo(proto: nat, id: nat, flags: nat)

  const ZERO := VlanInfo(0, 0, 0)

  /** How a call ends: a vlan line, an unknown kind, `exit(1)` on an oversized value, a failed
      assertion, a use of a null cursor, or a read outside the memory. */
  datatype Outcome = Vlan(info: VlanInfo) | Unknown(kind: seq<Byte>)
    | ReadMiss | AssertFailed | NullDeref | Overrun

  datatype Read = Value(v: nat) | Miss | Beyond

  datatype Progress = Going(info: VlanInfo) | Stopped(why: Outcome)

  /** `rtattr_read_16bit` and `rtattr_read_64bit`: too long a payload is refused, a short one is not. */
  function ReadWord(mem: seq<Byte>, rta: nat, size: nat): Read
    requires rta + HDR <= |mem|
  {
    if RtaPayloadLen(mem, rta) > size then Miss
    else if rta + HDR + size > |mem| then Beyond
    else Value(Word(mem, rta + HDR, size))
  }

  function Stop(r: Read): Progress
    requires !r.Value?
  {
    Stopped(if r.Miss? then ReadMiss else Overrun)
  }

  /** One attribute taken into the result. */
  function Visit(mem: seq<Byte>, rta: nat, info: VlanInfo): Progress {
    if rta + HDR > |mem| then Stopped(Overrun)
    else
      var t := RtaType(mem, rta);
      if t == IFLA_VLAN_ID then
        var r := ReadWord(mem, rta, 2); if r.Value? then Going(info.(id := r.v)) else Stop(r)
      else if t == IFLA_VLAN_FLAGS then
        var r := ReadWord(mem, rta, 8); if r.Value? then Going(info.(flags := r.v)) else Stop(r)
      else if t == IFLA_VLAN_PROTOCOL then
        var r := ReadWord(mem, rta, 2); if r.Value? then Going(info.(proto := r.v)) else Stop(r)
      else Going(info)
  }

  function Decode(mem: seq<Byte>, offsets: seq<nat>, info: VlanInfo): Progress
    decreases |offsets|
  {
    if offsets == [] then Going(info)
    else
      var p := Visit(mem, offsets[0], info);
      if p.Going? then Decode(mem, offsets[1..], p.info) else p
  }

  /** What the nested loop makes of the region at `base`. */
  function ReadRegion(mem: seq<Byte>, base: nat, buflen: int, info: VlanInfo): Progress {
    Decode(mem, Walk(mem, base, buflen), info)
  }

  /** The C string at `p`, if it ends inside the memory. */
  function CString(mem: seq<Byte>, p: nat): Option<seq<Byte>>
    requires p <= |mem|
    decreases |mem| - p
  {
    if p == |mem| then None
    else if mem[p] == 0 then Some([])
    else match CString(mem, p + 1) case None => None case Some(s) => Some([mem[p]] + s)
  }

  /** What `snprintf` leaves in the 100-byte buffer. */
  function InBuffer(s: seq<Byte>): seq<Byte> {
    if |s| < STRBUF then s else s[..STRBUF - 1]
  }

  /** The whole decoding, by what the bytes mean. */
  function DecodeLinkInfo(mem: seq<Byte>, root: nat): Outcome {
    var kind := root + HDR;
    if kind > |mem| then Overrun
    else if RtaType(mem, root) != IFLA_LINKINFO then AssertFailed
    else if kind + HDR > |mem| then Overrun
    else if RtaType(mem, kind) != IFLA_INFO_KIND then AssertFailed
    else if RtaPayloadLen(mem, kind) > STRBUF then ReadMiss
    else match CString(mem, kind + HDR)
      case None => Overrun
      case Some(s) =>
        if s != VLAN then Unknown(InBuffer(s))
        else if RtaLen(mem, kind) % 4 == 0 then NullDeref
        else VlanData(mem, kind + Padded(RtaLen(mem, kind)))
  }

  function VlanData(mem: seq<Byte>, data: nat): Outcome {
    if data + HDR > |mem| then Overrun
    else if RtaType(mem, data) != IFLA_INFO_DATA then Unknown(VLAN)
    else match ReadRegion(mem, data + HDR, RtaLen(mem, data) - HDR, ZERO)
      case Going(info) => Vlan(info)
      case Stopped(why) => why
  }

  // ------------------------------------------------------------ the program

  /** The loop over the nested attributes, with its cursor and remaining length. */
  method VlanLoop(mem: seq<Byte>, data: nat, plen: int) returns (r: Progress)
    requires -(TWO64 / 2) <= plen < TWO64 / 2
    ensures r == ReadRegion(mem, data, plen, ZERO)
  {
    hide RtaLen, Padded, RtaType, Walk;
    var vlaninfo := ZERO;
    var nrta: Option<nat> := Some(data);
    var nbuflen := plen;
    ghost var goal := Decode(mem, Walk(mem, data, plen), ZERO);
    while nrta.Some?
      invariant -(TWO64 / 2) <= nbuflen < TWO64 / 2
      invariant goal == if nrta.Some? then Decode(mem, Walk(mem, nrta.value, nbuflen), vlaninfo) else Going(vlaninfo)
      decreases nrta.Some?, if nbuflen > 0 then nbuflen else 0
    {
      var rta := nrta.value;
      WalkHead(mem, rta, nbuflen);
      if rta + HDR > |mem| { return Stopped(Overrun); }
      var t := RtaType(mem, rta);
      var seen := Visit(mem, rta, vlaninfo);
      if t == IFLA_VLAN_ID {
        var v := ReadWord(mem, rta, 2);
        if !v.Value? { return Stop(v); }
        vlaninfo := vlaninfo.(id := v.v);
      } else if t == IFLA_VLAN_FLAGS {
        var v := ReadWord(mem, rta, 8);
        if !v.Value? { return Stop(v); }
        vlaninfo := vlaninfo.(flags := v.v);
      } else if t == IFLA_VLAN_PROTOCOL {
        var v := ReadWord(mem, rta, 2);
        if !v.Value? { return Stop(v); }
        vlaninfo := vlaninfo.(proto := v.v);
      }
      ghost var rest := Walk(mem, rta, nbuflen)[1..];
      assert goal == Decode(mem, rest, vlaninfo);
      ghost var was, step := nbuflen, Padded(RtaLen(mem, rta));
      nrta, nbuflen := RtattrNext(mem, rta, nbuflen);
      if nrta.None? || nbuflen <= 0 {
        WalkEnds(mem, rta, was, step);
        break;
      }
      WalkOn(mem, rta, was, step, nbuflen);
    }
    return Going(vlaninfo);
  }

  lemma BufferedKind(s: seq<Byte>)
    ensures InBuffer(s) == VLAN <==> s == VLAN
  {
  }

  method RtaToStrLinkInfo(mem: seq<Byte>, root: nat) returns (r: Outcome)
    ensures r == DecodeLinkInfo(mem, root)
  {
    if root + HDR > |mem| { return Overrun; }
    if RtaType(mem, root) != IFLA_LINKINFO { return AssertFailed; }
    var rta := root + HDR;
    if rta + HDR > |mem| { return Overrun; }
    if RtaType(mem, rta) != IFLA_INFO_KIND { return AssertFailed; }
    if RtaPayloadLen(mem, rta) > STRBUF { return ReadMiss; }
    var s := CString(mem, rta + HDR);
    if s.None? { return Overrun; }
    var strbuf := InBuffer(s.value);
    BufferedKind(s.value);
    if strbuf == VLAN {
      PaddedTight(RtaLen(mem, rta));
      var next, l := RtattrNext(mem, rta, RtaLen(mem, rta));
      // The type is read before the cursor is tested.
      if next.None? { return NullDeref; }
      if next.value + HDR > |mem| { return Overrun; }
      if RtaType(mem, next.value) == IFLA_INFO_DATA {
        PayloadSigned(mem, next.value);
        var p := VlanLoop(mem, next.value + HDR, Signed64(RtaPayloadLen(mem, next.value)));
        if p.Going? { return Vlan(p.info); } else { return p.why; }
      }
    }
    return Unknown(strbuf);
  }

  // ------------------------------------------------------- arbitrary bytes

  /** The length of a vlan attribute is neither below its header nor beyond its value. */
  predicate Readable(mem: seq<Byte>, rta: nat)
    requires rta + HDR <= |mem|
  {
    var t, len := RtaType(mem, rta), RtaLen(mem, rta);
    && (t == IFLA_VLAN_ID || t == IFLA_VLAN_PROTOCOL ==> HDR <= len <= HDR + 2)
    && (t == IFLA_VLAN_FLAGS ==> HDR <= len <= HDR + 8)
  }

  lemma PayloadBounded(len: nat, size: nat)
    requires len < 65536 && size <= 8
    ensures Wrap64(len - HDR) <= size <==> HDR <= len <= HDR + size
  {
    if len >= HDR {
      ModUnique(len - HDR, TWO64, 0, len - HDR);
    } else {
      ModUnique(len - HDR, TWO64, -1, len - HDR + TWO64);
    }
  }

  /** The value of a vlan attribute, as it is read, ends by `end`, whatever the attribute's own length. */
  predicate ValueBy(mem: seq<Byte>, rta: nat, end: nat)
    requires rta + HDR <= |mem|
  {
    var t := RtaType(mem, rta);
    && (t == IFLA_VLAN_ID || t == IFLA_VLAN_PROTOCOL ==> rta + HDR + 2 <= end)
    && (t == IFLA_VLAN_FLAGS ==> rta + HDR + 8 <= end)
  }

  predicate Taken(mem: seq<Byte>, rta: nat, end: nat)
    requires rta + HDR <= |mem|
  {
    Readable(mem, rta) && ValueBy(mem, rta, end)
  }

  /** Offsets of headers that lie in memory. */
  predicate Headers(mem: seq<Byte>, w: seq<nat>) {
    forall i :: 0 <= i < |w| ==> w[i] + HDR <= |mem|
  }

  predicate AllTaken(mem: seq<Byte>, w: seq<nat>, end: nat)
    requires Headers(mem, w)
  {
    forall i :: 0 <= i < |w| ==> Taken(mem, w[i], end)
  }

  /** The first header that is not taken. */
  predicate FirstBad(mem: seq<Byte>, w: seq<nat>, end: nat, k: nat)
    requires Headers(mem, w)
  {
    k < |w| && !Taken(mem, w[k], end) && forall i :: 0 <= i < k ==> Taken(mem, w[i], end)
  }

  lemma VisitOutcome(mem: seq<Byte>, rta: nat, info: VlanInfo)
    requires rta + HDR <= |mem|
    ensures var p := Visit(mem, rta, info);
      if Taken(mem, rta, |mem|) then p.Going? else p == Stopped(if Readable(mem, rta) then Overrun else ReadMiss)
  {
    PayloadBounded(RtaLen(mem, rta), 2);
    PayloadBounded(RtaLen(mem, rta), 8);
  }

  lemma {:induction false} DecodeOutcome(mem: seq<Byte>, w: seq<nat>, info: VlanInfo) returns (k: nat)
    requires Headers(mem, w)
    ensures var p := Decode(mem, w, info);
      if AllTaken(mem, w, |mem|) then p.Going?
      else FirstBad(mem, w, |mem|, k) && p == Stopped(if Readable(mem, w[k]) then Overrun else ReadMiss)
    decreases |w|
  {
    k := 0;
    if w == [] {
    } else {
      hide Visit, Taken, Readable;
      var p, rest := Visit(mem, w[0], info), w[1..];
      VisitOutcome(mem, w[0], info);
      if p.Going? {
        k := DecodeOutcome(mem, rest, p.info);
        k := k + 1;
        assert forall i :: 1 <= i < |w| ==> w[i] == rest[i - 1];
        if AllTaken(mem, rest, |mem|) {
          assert AllTaken(mem, w, |mem|);
        } else {
          assert FirstBad(mem, w, |mem|, k);
        }
      }
    }
  }

  lemma WalkHeaders(mem: seq<Byte>, base: nat, buflen: int)
    requires HDR <= buflen && base + buflen <= |mem|
    ensures Headers(mem, Walk(mem, base, buflen))
    ensures forall i :: 0 <= i < |Walk(mem, base, buflen)| ==> base <= Walk(mem, base, buflen)[i] <= base + buflen - HDR
  {
    hide Walk;
    WalkStays(mem, base, buflen);
    assert forall i :: 0 <= i < |Walk(mem, base, buflen)| ==> Inside(Walk(mem, base, buflen)[i], base, buflen);
  }

  /**
   On any bytes, if the region holds a header: the headers inspected lie in it, and the loop succeeds exactly when
   each is readable and its value ends in memory. Otherwise the first that is not decides: a readable one is a read
   outside the memory, any other the read-miss exit.
  */
  lemma ReadAnything(mem: seq<Byte>, base: nat, buflen: int, info: VlanInfo) returns (k: nat)
    requires HDR <= buflen && base + buflen <= |mem|
    ensures Headers(mem, Walk(mem, base, buflen))
    ensures var w, p := Walk(mem, base, buflen), ReadRegion(mem, base, buflen, info);
      && (forall i :: 0 <= i < |w| ==> base <= w[i] <= base + buflen - HDR)
      && (if AllTaken(mem, w, |mem|) then p.Going?
          else FirstBad(mem, w, |mem|, k) && p == Stopped(if Readable(mem, w[k]) then Overrun else ReadMiss))
  {
    hide Walk, Decode, Taken, Readable;
    WalkHeaders(mem, base, buflen);
    k := DecodeOutcome(mem, Walk(mem, base, buflen), info);
  }

  // ------------------------------------------------------ the payload alone

  lemma SameHeader(mem: seq<Byte>, end: nat, o: nat)
    requires o + HDR <= end <= |mem|
    ensures RtaLen(mem[..end], o) == RtaLen(mem, o) && RtaType(mem[..end], o) == RtaType(mem, o)
  {
  }

  lemma {:induction false} WalkCut(mem: seq<Byte>, base: nat, buflen: int)
    requires HDR <= buflen && base + buflen <= |mem|
    ensures Walk(mem[..base + buflen], base, buflen) == Walk(mem, base, buflen)
    decreases buflen
  {
    hide RtaLen, Padded, Walk;
    var cut, step := mem[..base + buflen], Padded(RtaLen(mem, base));
    SameHeader(mem, base + buflen, base);
    if step != 0 && buflen - step > HDR {
      WalkOn(mem, base, buflen, step, buflen - step);
      WalkOn(cut, base, buflen, step, buflen - step);
      WalkCut(mem, base + step, buflen - step);
    } else {
      WalkEnds(mem, base, buflen, step);
      WalkEnds(cut, base, buflen, step);
    }
  }

  /** A value that ends before the cut reads the same with and without it. */
  lemma SameValue(mem: seq<Byte>, end: nat, o: nat, size: nat)
    requires o + HDR <= end <= |mem|
    ensures ReadWord(mem[..end], o, size) == ReadWord(mem, o, size) || ReadWord(mem[..end], o, size) == Beyond
  {
    SameHeader(mem, end, o);
    var from := o + HDR;
    if from + size <= end {
      assert mem[..end][from..from + size] == mem[from..from + size];
      WordFrame(mem[..end], from, mem, from, size);
    }
  }

  lemma VisitCut(mem: seq<Byte>, end: nat, o: nat, info: VlanInfo)
    requires o + HDR <= end <= |mem|
    ensures Visit(mem[..end], o, info) == Visit(mem, o, info) || Visit(mem[..end], o, info) == Stopped(Overrun)
  {
    hide ReadWord, RtaType;
    SameHeader(mem, end, o);
    SameValue(mem, end, o, 2);
    SameValue(mem, end, o, 8);
  }

  lemma {:induction false} DecodeCut(mem: seq<Byte>, end: nat, w: seq<nat>, info: VlanInfo)
    requires end <= |mem| && Headers(mem[..end], w)
    ensures Decode(mem[..end], w, info) == Decode(mem, w, info) || Decode(mem[..end], w, info) == Stopped(Overrun)
    decreases |w|
  {
    if w == [] {
    } else {
      hide Visit;
      VisitCut(mem, end, w[0], info);
      var p := Visit(mem, w[0], info);
      if p.Going? {
        DecodeCut(mem, end, w[1..], p.info);
      }
    }
  }

  lemma TakenCut(mem: seq<Byte>, end: nat, w: seq<nat>)
    requires end <= |mem| && Headers(mem[..end], w)
    ensures AllTaken(mem[..end], w, end) <==> AllTaken(mem, w, end)
  {
    hide RtaLen, RtaType;
    forall i | 0 <= i < |w| ensures Taken(mem[..end], w[i], end) <==> Taken(mem, w[i], end) {
      SameHeader(mem, end, w[i]);
    }
  }

  /**
   With the memory cut off behind the payload, the loop succeeds exactly when every header inspected is readable and
   its value, two or eight bytes whatever its own length, ends in the payload; and unless the cut is felt as a read
   beyond the payload, the bytes behind it do not matter to the result.
  */
  lemma PayloadAlone(mem: seq<Byte>, base: nat, buflen: int, info: VlanInfo)
    requires HDR <= buflen && base + buflen <= |mem|
    ensures Headers(mem, Walk(mem, base, buflen))
    ensures var end := base + buflen; var p := ReadRegion(mem[..end], base, buflen, info);
      && (p.Going? <==> AllTaken(mem, Walk(mem, base, buflen), end))
      && (p != Stopped(Overrun) ==> ReadRegion(mem, base, buflen, info) == p)
  {
    hide Walk, Decode, Taken, Readable;
    var cut, w := mem[..base + buflen], Walk(mem, base, buflen);
    WalkCut(mem, base, buflen);
    WalkHeaders(mem, base, buflen);
    WalkHeaders(cut, base, buflen);
    var k := DecodeOutcome(cut, w, info);
    DecodeCut(mem, base + buflen, w, info);
    TakenCut(mem, base + buflen, w);
  }

  /** So a payload of one bare id header is read as holding the two bytes behind it. */
  lemma BareHeaderBorrows(mem: seq<Byte>, base: nat, info: VlanInfo)
    requires base + HDR + 2 <= |mem| && RtaLen(mem, base) == HDR && RtaType(mem, base) == IFLA_VLAN_ID
    ensures ReadRegion(mem, base, HDR, info) == Going(info.(id := Word(mem, base + HDR, 2)))
    ensures ReadRegion(mem[..base + HDR], base, HDR, info) == Stopped(Overrun)
  {
    hide Walk;
    var cut := mem[..base + HDR];
    SameHeader(mem, base + HDR, base);
    WalkEnds(mem, base, HDR, HDR);
    WalkEnds(cut, base, HDR, HDR);
    PayloadBounded(HDR, 2);
    var info' := info.(id := Word(mem, base + HDR, 2));
    assert Visit(mem, base, info) == Going(info');
    DecodeCons(mem, base, [base], [], info, info', Going(info'));
    assert Visit(cut, base, info) == Stopped(Overrun);
  }

  // ------------------------------------------------- well-formed attributes

  /** The vlan attributes carry exactly their value; any other type may carry anything. */
  predicate VlanLaid(a: Attr) {
    && Laid(a)
    && (a.typ == IFLA_VLAN_ID || a.typ == IFLA_VLAN_PROTOCOL ==> |a.payload| == 2)
    && (a.typ == IFLA_VLAN_FLAGS ==> |a.payload| == 8)
  }

  predicate AllVlanLaid(attrs: seq<Attr>) {
    forall i :: 0 <= i < |attrs| ==> VlanLaid(attrs[i])
  }

  function Update(a: Attr, info: VlanInfo): VlanInfo
    requires VlanLaid(a)
  {
    if a.typ == IFLA_VLAN_ID then info.(id := Word(a.payload, 0, 2))
    else if a.typ == IFLA_VLAN_FLAGS then info.(flags := Word(a.payload, 0, 8))
    else if a.typ == IFLA_VLAN_PROTOCOL then info.(proto := Word(a.payload, 0, 2))
    else info
  }

  /** The meaning of an attribute list: for each field the last value wins. */
  function Fold(attrs: seq<Attr>, info: VlanInfo): VlanInfo
    requires AllVlanLaid(attrs)
  {
    if attrs == [] then info else Fold(attrs[1..], Update(attrs[0], info))
  }

  /** One attribute read from memory has its effect. */
  lemma VisitAttr(mem: seq<Byte>, o: nat, a: Attr, info: VlanInfo)
    requires VlanLaid(a) && AttrIn(mem, o, a)
    ensures Visit(mem, o, info) == Going(Update(a, info))
  {
    var n := |a.payload|;
    ModUnique(n, TWO64, 0, n);
    if a.typ == IFLA_VLAN_ID || a.typ == IFLA_VLAN_FLAGS || a.typ == IFLA_VLAN_PROTOCOL {
      assert a.payload[0..n] == a.payload;
      WordFrame(mem, o + HDR, a.payload, 0, n);
    }
  }

  /**
   Reading a non-empty list of vlan attributes gives the last-value-wins fold, for any number,
   order and repetition of types, and whether or not the length counts the last padding.
  */
  lemma {:induction false} ReadList(mem: seq<Byte>, base: nat, attrs: seq<Attr>, buflen: int, info: VlanInfo)
    requires attrs != [] && AllVlanLaid(attrs) && ListIn(mem, base, attrs)
    requires Packed(attrs) <= buflen <= Total(attrs)
    ensures ReadRegion(mem, base, buflen, info) == Going(Fold(attrs, info))
    decreases |attrs|
  {
    var a, rest := attrs[0], attrs[1..];
    var next, left, info' := base + Size(a), buflen - Size(a), Update(a, info);
    assert VlanLaid(a);
    if rest == [] {
      ReadLast(mem, base, a, buflen, info, next, left);
    } else {
      ListSizes(rest);
      if left > HDR {
        ReadList(mem, next, rest, left, info');
        ReadMore(mem, base, a, buflen, info, next, left, Fold(rest, info'));
      } else {
        // What is left is one bare header: the cursor skips it, and it has no effect.
        assert VlanLaid(rest[0]) && Update(rest[0], info') == info';
        assert rest[1..] == [];
        assert Fold(rest, info') == info';
        ReadLast(mem, base, a, buflen, info, next, left);
      }
    }
  }

  /** The first of several attributes. */
  lemma ReadMore(mem: seq<Byte>, base: nat, a: Attr, buflen: int, info: VlanInfo,
                 next: nat, left: int, result: VlanInfo)
    requires VlanLaid(a) && AttrIn(mem, base, a)
    requires next == base + Size(a) && left == buflen - Size(a) > HDR
    requires ReadRegion(mem, next, left, Update(a, info)) == Going(result)
    ensures ReadRegion(mem, base, buflen, info) == Going(result)
  {
    VisitAttr(mem, base, a, info);
    WalkAttr(mem, base, a, buflen, next, left);
    DecodeCons(mem, base, Walk(mem, base, buflen), Walk(mem, next, left), info, Update(a, info), Going(result));
  }

  /** The last attribute the cursor reaches. */
  lemma ReadLast(mem: seq<Byte>, base: nat, a: Attr, buflen: int, info: VlanInfo, next: nat, left: int)
    requires VlanLaid(a) && AttrIn(mem, base, a)
    requires next == base + Size(a) && left == buflen - Size(a) <= HDR
    ensures ReadRegion(mem, base, buflen, info) == Going(Update(a, info))
  {
    VisitAttr(mem, base, a, info);
    WalkAttr(mem, base, a, buflen, next, left);
    DecodeCons(mem, base, Walk(mem, base, buflen), [], info, Update(a, info), Going(Update(a, info)));
  }

  lemma DecodeCons(mem: seq<Byte>, o: nat, w: seq<nat>, tail: seq<nat>, info: VlanInfo, info': VlanInfo, end: Progress)
    requires w == [o] + tail
    requires Visit(mem, o, info) == Going(info') && Decode(mem, tail, info') == end
    ensures Decode(mem, w, info) == end
  {
    assert w[1..] == tail;
  }
}
