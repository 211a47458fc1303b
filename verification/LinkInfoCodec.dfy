/** Encoding a vlan LINKINFO attribute, and what `rta_to_str_IFLA_LINKINFO` recovers from it. */
module LinkInfoCodec {
  import opened Bytes
  import opened Words
  import opened Rtattr
  import opened Attributes
  import opened LinkInfo

  function KindAttr(pad: seq<Byte>): Attr { Attr(IFLA_INFO_KIND, VLAN + [0], pad) }

  function DataAttr(attrs: seq<Attr>): Attr { Attr(IFLA_INFO_DATA, Enc(attrs), []) }

  function RootAttr(attrs: seq<Attr>, pad: seq<Byte>): Attr {
    Attr(IFLA_LINKINFO, EncAttr(KindAttr(pad)) + EncAttr(DataAttr(attrs)), [])
  }

  /** Lists that fit a LINKINFO attribute; the kind has length 9 and three bytes of padding. */
  predicate Fits(attrs: seq<Attr>, pad: seq<Byte>) {
    AllVlanLaid(attrs) && |pad| == 3 && |Enc(attrs)| + 20 < 65536
  }

  lemma {:induction false} EncAligned(attrs: seq<Attr>)
    requires AllVlanLaid(attrs)
    ensures |Enc(attrs)| % 4 == 0
  {
    if attrs == [] {
    } else {
      EncAligned(attrs[1..]);
      AttrAligned(attrs[0], Enc(attrs[1..]));
    }
  }

  lemma AttrAligned(a: Attr, rest: seq<Byte>)
    requires VlanLaid(a) && |rest| % 4 == 0
    ensures |EncAttr(a) + rest| % 4 == 0
  {
  }

  lemma {:induction false} CStringAt(mem: seq<Byte>, p: nat, s: seq<Byte>)
    requires At(mem, p, s + [0]) && 0 !in s
    ensures CString(mem, p) == Some(s)
    decreases |s|
  {
    AtPart(mem, p, s + [0], 0, 1);
    assert mem[p] == (s + [0])[0..1][0];
    if s == [] {
    } else {
      AtPart(mem, p, s + [0], 1, |s| + 1);
      assert (s + [0])[1..|s| + 1] == s[1..] + [0];
      CStringAt(mem, p + 1, s[1..]);
      assert s == [s[0]] + s[1..];
    }
  }

  lemma NestLaid(typ: nat, payload: seq<Byte>)
    requires typ < 65536 && |payload| % 4 == 0 && HDR + |payload| < 65536
    ensures Laid(Attr(typ, payload, []))
  {
  }

  /** The three nested headers of an encoding. */
  lemma HeadersIn(mem: seq<Byte>, root: nat, attrs: seq<Attr>, pad: seq<Byte>)
    requires Fits(attrs, pad) && At(mem, root, EncAttr(RootAttr(attrs, pad)))
    ensures AttrIn(mem, root, RootAttr(attrs, pad))
    ensures AttrIn(mem, root + 4, KindAttr(pad)) && AttrIn(mem, root + 16, DataAttr(attrs))
  {
    EncAligned(attrs);
    NestedIn(mem, root, KindAttr(pad), DataAttr(attrs));
  }

  lemma NestedIn(mem: seq<Byte>, root: nat, kind: Attr, data: Attr)
    requires kind.typ < 65536 && |kind.payload| == 5 && |kind.pad| == 3
    requires data.typ < 65536 && |data.payload| % 4 == 0 && |data.payload| + 20 < 65536 && data.pad == []
    requires At(mem, root, EncAttr(Attr(IFLA_LINKINFO, EncAttr(kind) + EncAttr(data), [])))
    ensures AttrIn(mem, root, Attr(IFLA_LINKINFO, EncAttr(kind) + EncAttr(data), []))
    ensures AttrIn(mem, root + 4, kind) && AttrIn(mem, root + 16, data)
  {
    hide AttrIn, EncAttr, At, Padded;
    var whole := Attr(IFLA_LINKINFO, EncAttr(kind) + EncAttr(data), []);
    NestLaid(data.typ, data.payload);
    NestLaid(IFLA_LINKINFO, whole.payload);
    KindLaid(kind);
    AttrAt(mem, root, whole);
    PayloadAt(mem, root, whole);
    AtConcat(mem, root + HDR, EncAttr(kind), EncAttr(data));
    AttrAt(mem, root + 4, kind);
    AttrAt(mem, root + 16, data);
  }

  lemma KindLaid(kind: Attr)
    requires kind.typ < 65536 && |kind.payload| == 5 && |kind.pad| == 3
    ensures Laid(kind)
  {
  }

  lemma PayloadAt(mem: seq<Byte>, o: nat, a: Attr)
    requires AttrIn(mem, o, a)
    ensures At(mem, o + HDR, a.payload)
  {
  }

  /** The decoder gets from the root, over the kind, to the vlan data. */
  lemma StepsToData(mem: seq<Byte>, root: nat, whole: Attr, kind: Attr)
    requires AttrIn(mem, root, whole) && whole.typ == IFLA_LINKINFO
    requires AttrIn(mem, root + 4, kind) && kind.typ == IFLA_INFO_KIND && kind.payload == VLAN + [0]
    ensures DecodeLinkInfo(mem, root) == VlanData(mem, root + 16)
  {
    KindIsVlan(mem, root + 4, kind);
  }

  lemma ReachesData(mem: seq<Byte>, root: nat, attrs: seq<Attr>, pad: seq<Byte>)
    requires Fits(attrs, pad) && At(mem, root, EncAttr(RootAttr(attrs, pad)))
    ensures root + 20 <= |mem| && At(mem, root + 20, Enc(attrs))
    ensures RtaType(mem, root + 16) == IFLA_INFO_DATA && RtaLen(mem, root + 16) == HDR + |Enc(attrs)|
    ensures DecodeLinkInfo(mem, root) == VlanData(mem, root + 16)
  {
    HeadersIn(mem, root, attrs, pad);
    StepsToData(mem, root, RootAttr(attrs, pad), KindAttr(pad));
  }

  lemma KindIsVlan(mem: seq<Byte>, kind: nat, a: Attr)
    requires AttrIn(mem, kind, a) && a.payload == VLAN + [0]
    ensures CString(mem, kind + HDR) == Some(VLAN) && RtaPayloadLen(mem, kind) == 5
  {
    CStringAt(mem, kind + HDR, VLAN);
    ModUnique(5, TWO64, 0, 5);
  }

  /** For every list of vlan attributes with at least one member, in any order and with any repetition, and
      whatever stands around it in memory, decoding gives the last-value-wins fold. */
  lemma DecodeEncode(mem: seq<Byte>, root: nat, attrs: seq<Attr>, pad: seq<Byte>)
    requires attrs != [] && Fits(attrs, pad) && At(mem, root, EncAttr(RootAttr(attrs, pad)))
    ensures DecodeLinkInfo(mem, root) == Vlan(Fold(attrs, ZERO))
  {
    ReachesData(mem, root, attrs, pad);
    EncIn(mem, root + 20, attrs);
    EncLen(attrs);
    ListSizes(attrs);
    ReadList(mem, root + 20, attrs, Total(attrs), ZERO);
  }

  /** With no attributes at all the loop still reads one header: the result is that of whatever vlan
      attribute happens to follow in memory. */
  lemma EmptyDataBorrows(mem: seq<Byte>, root: nat, pad: seq<Byte>, next: Attr)
    requires |pad| == 3 && VlanLaid(next)
    requires At(mem, root, EncAttr(RootAttr([], pad))) && AttrIn(mem, root + 20, next)
    ensures DecodeLinkInfo(mem, root) == Vlan(Update(next, ZERO))
  {
    ReachesData(mem, root, [], pad);
    var size: int := Size(next);
    ReadLast(mem, root + 20, next, 0, ZERO, root + 20 + Size(next), 0 - size);
  }

  /** Decoding recovers the meaning of the encoded list in every memory exactly when the list is not empty. */
  lemma DecodesIffNonEmpty(attrs: seq<Attr>, pad: seq<Byte>)
    requires Fits(attrs, pad)
    ensures attrs != [] <==>
      forall mem, root | At(mem, root, EncAttr(RootAttr(attrs, pad))) :: DecodeLinkInfo(mem, root) == Vlan(Fold(attrs, ZERO))
  {
    if attrs != [] {
      forall mem, root | At(mem, root, EncAttr(RootAttr(attrs, pad)))
        ensures DecodeLinkInfo(mem, root) == Vlan(Fold(attrs, ZERO))
      {
        DecodeEncode(mem, root, attrs, pad);
      }
    } else {
      var mem := EncAttr(RootAttr(attrs, pad));
      assert At(mem, 0, mem);
      ReachesData(mem, 0, attrs, pad);
      assert Walk(mem, 20, 0) == [20];
      assert DecodeLinkInfo(mem, 0) == Overrun;
    }
  }

  /** The last value of a type in a list, and 0 if there is none. */
  function LastValue(attrs: seq<Attr>, typ: nat): nat {
    if attrs == [] then 0
    else
      var a := attrs[|attrs| - 1];
      if a.typ == typ then Word(a.payload, 0, |a.payload|) else LastValue(attrs[..|attrs| - 1], typ)
  }

  lemma {:induction false} FoldIsLast(attrs: seq<Attr>)
    requires AllVlanLaid(attrs)
    ensures Fold(attrs, ZERO) == VlanInfo(LastValue(attrs, 5), LastValue(attrs, 1), LastValue(attrs, 2))
    decreases |attrs|
  {
    hide Word, Laid;
    if attrs == [] {
    } else {
      var front, a := attrs[..|attrs| - 1], attrs[|attrs| - 1];
      assert attrs == front + [a] && VlanLaid(a);
      FoldIsLast(front);
      FoldAppend(front, a, ZERO);
    }
  }

  /** Decoding an encoded list that is not empty gives, for protocol, id and flags, the last value of types 5, 1
      and 2, and 0 for a type that does not occur. */
  lemma DecodesLastValues(mem: seq<Byte>, root: nat, attrs: seq<Attr>, pad: seq<Byte>)
    requires attrs != [] && Fits(attrs, pad) && At(mem, root, EncAttr(RootAttr(attrs, pad)))
    ensures DecodeLinkInfo(mem, root) == Vlan(VlanInfo(LastValue(attrs, 5), LastValue(attrs, 1), LastValue(attrs, 2)))
  {
    DecodeEncode(mem, root, attrs, pad);
    FoldIsLast(attrs);
  }

  function WordAttr(typ: nat, v: nat, n: nat): Attr {
    Attr(typ, Put(v, n), if n == 2 then [0, 0] else [])
  }

  /** One attribute for each field. */
  function AttrsOf(info: VlanInfo): seq<Attr> {
    [WordAttr(IFLA_VLAN_PROTOCOL, info.proto, 2)] + [WordAttr(IFLA_VLAN_ID, info.id, 2)]
    + [WordAttr(IFLA_VLAN_FLAGS, info.flags, 8)]
  }

  predicate InRange(info: VlanInfo) {
    info.proto < Exp256(2) && info.id < Exp256(2) && info.flags < Exp256(8)
  }

  lemma {:induction false} FoldAppend(attrs: seq<Attr>, a: Attr, info: VlanInfo)
    requires AllVlanLaid(attrs) && VlanLaid(a)
    ensures AllVlanLaid(attrs + [a]) && Fold(attrs + [a], info) == Update(a, Fold(attrs, info))
    decreases |attrs|
  {
    if attrs == [] {
      assert attrs + [a] == [a] && [a][1..] == [];
    } else {
      assert (attrs + [a])[1..] == attrs[1..] + [a];
      FoldAppend(attrs[1..], a, Update(attrs[0], info));
    }
  }

  /** The fold of the three fields is their value. */
  lemma FoldAttrsOf(info: VlanInfo)
    requires InRange(info)
    ensures AllVlanLaid(AttrsOf(info)) && Fold(AttrsOf(info), ZERO) == info
  {
    WordOfPut(info.proto, 2);
    WordOfPut(info.id, 2);
    WordOfPut(info.flags, 8);
    var a, b, d := WordAttr(IFLA_VLAN_PROTOCOL, info.proto, 2), WordAttr(IFLA_VLAN_ID, info.id, 2),
                   WordAttr(IFLA_VLAN_FLAGS, info.flags, 8);
    FoldAppend([], a, ZERO);
    assert [] + [a] == [a];
    FoldAppend([a], b, ZERO);
    FoldAppend([a] + [b], d, ZERO);
  }

  lemma EncAppend(attrs: seq<Attr>, a: Attr)
    ensures |Enc(attrs + [a])| == |Enc(attrs)| + |EncAttr(a)|
    decreases |attrs|
  {
    if attrs == [] {
      assert attrs + [a] == [a] && [a][1..] == [];
    } else {
      assert (attrs + [a])[1..] == attrs[1..] + [a];
      EncAppend(attrs[1..], a);
    }
  }

  /** Decoding is the inverse of encoding on every value of the three fields. */
  lemma RoundTrip(mem: seq<Byte>, root: nat, info: VlanInfo, pad: seq<Byte>)
    requires InRange(info) && |pad| == 3 && At(mem, root, EncAttr(RootAttr(AttrsOf(info), pad)))
    ensures DecodeLinkInfo(mem, root) == Vlan(info)
  {
    FoldAttrsOf(info);
    var a, b, d := WordAttr(IFLA_VLAN_PROTOCOL, info.proto, 2), WordAttr(IFLA_VLAN_ID, info.id, 2),
                   WordAttr(IFLA_VLAN_FLAGS, info.flags, 8);
    EncAppend([], a);
    assert [] + [a] == [a];
    EncAppend([a], b);
    EncAppend([a] + [b], d);
    DecodeEncode(mem, root, AttrsOf(info), pad);
  }

  // ------------------------------------------------------ everything but vlan

  /** The buffer of the text, when the kind is an unknown one: what was read of it, up to 99 characters. */
  lemma OtherKind(mem: seq<Byte>, root: nat, s: seq<Byte>)
    requires root + 8 <= |mem| && RtaType(mem, root) == 18 && RtaType(mem, root + 4) == 1
    requires 4 <= RtaLen(mem, root + 4) <= 104
    requires At(mem, root + 8, s + [0]) && 0 !in s && s != [0x76, 0x6c, 0x61, 0x6e]
    ensures DecodeLinkInfo(mem, root) == Unknown(if |s| < 100 then s else s[..99])
  {
    hide RtaType, RtaLen, At, CString;
    CStringAt(mem, root + 8, s);
    KindLength(mem, root + 4);
  }

  lemma KindLength(mem: seq<Byte>, kind: nat)
    requires kind + 4 <= |mem|
    ensures RtaPayloadLen(mem, kind) > 100 <==> RtaLen(mem, kind) < 4 || RtaLen(mem, kind) > 104
  {
    hide RtaLen;
    var len := RtaLen(mem, kind);
    if len >= 4 {
      ModUnique(len - 4, TWO64, 0, len - 4);
    } else {
      ModUnique(len - 4, TWO64, -1, len - 4 + TWO64);
    }
  }

  /** A LINKINFO attribute with a kind, encoded with whatever stands behind it. */
  function RootOf(kind: Attr, more: seq<Byte>, pad: seq<Byte>): Attr {
    Attr(18, EncAttr(kind) + more, pad)
  }

  lemma RootOfIn(mem: seq<Byte>, root: nat, kind: Attr, more: seq<Byte>, pad: seq<Byte>)
    requires Laid(kind) && Laid(RootOf(kind, more, pad)) && At(mem, root, EncAttr(RootOf(kind, more, pad)))
    ensures AttrIn(mem, root, RootOf(kind, more, pad)) && AttrIn(mem, root + 4, kind)
    ensures At(mem, root + 4 + Size(kind), more)
  {
    hide AttrIn, EncAttr, At, Padded, Laid;
    var whole := RootOf(kind, more, pad);
    AttrAt(mem, root, whole);
    PayloadAt(mem, root, whole);
    EncHead(mem, root + 4, kind, more);
  }

  /** Every kind but vlan that fits the buffer comes out as it was encoded. */
  lemma OtherKindEncoded(mem: seq<Byte>, root: nat, s: seq<Byte>, kindPad: seq<Byte>, more: seq<Byte>, pad: seq<Byte>)
    requires 0 !in s && |s| < 100 && s != [0x76, 0x6c, 0x61, 0x6e]
    requires var kind := Attr(1, s + [0], kindPad);
      Laid(kind) && Laid(RootOf(kind, more, pad)) && At(mem, root, EncAttr(RootOf(kind, more, pad)))
    ensures DecodeLinkInfo(mem, root) == Unknown(s)
  {
    hide DecodeLinkInfo, At, EncAttr, Laid;
    var kind := Attr(1, s + [0], kindPad);
    RootOfIn(mem, root, kind, more, pad);
    PayloadAt(mem, root + 4, kind);
    OtherKind(mem, root, s);
  }

  /** A vlan kind with something else than its data behind it is an unknown kind, too. */
  lemma VlanWithoutData(mem: seq<Byte>, root: nat, kindPad: seq<Byte>, other: Attr, pad: seq<Byte>)
    requires Laid(other) && other.typ != 2
    requires var kind := Attr(1, [0x76, 0x6c, 0x61, 0x6e, 0], kindPad);
      && Laid(kind) && Laid(RootOf(kind, EncAttr(other), pad))
      && At(mem, root, EncAttr(RootOf(kind, EncAttr(other), pad)))
    ensures DecodeLinkInfo(mem, root) == Unknown([0x76, 0x6c, 0x61, 0x6e])
  {
    hide DecodeLinkInfo, At, EncAttr, Laid;
    var kind := Attr(1, [0x76, 0x6c, 0x61, 0x6e, 0], kindPad);
    RootOfIn(mem, root, kind, EncAttr(other), pad);
    AttrAt(mem, root + 16, other);
    StepsToData(mem, root, RootOf(kind, EncAttr(other), pad), kind);
  }

  /** The ways not to get so far: an assertion on either type, the read-miss exit on a kind of more than a
      hundred bytes, and the null cursor behind a vlan kind without padding. */
  lemma Refused(mem: seq<Byte>, root: nat)
    requires root + 8 <= |mem|
    ensures RtaType(mem, root) != 18 || RtaType(mem, root + 4) != 1 <==> DecodeLinkInfo(mem, root) == AssertFailed
    ensures RtaType(mem, root) == 18 && RtaType(mem, root + 4) == 1 && (RtaLen(mem, root + 4) < 4 || RtaLen(mem, root + 4) > 104)
      ==> DecodeLinkInfo(mem, root) == ReadMiss
  {
    hide RtaType, RtaLen, CString;
    KindLength(mem, root + 4);
    NoAssertInside(mem, root + 4);
  }

  lemma {:induction false} DecodeNoAssert(mem: seq<Byte>, w: seq<nat>, info: VlanInfo)
    ensures Decode(mem, w, info) != Stopped(AssertFailed)
    decreases |w|
  {
    if w == [] {
    } else {
      var p := Visit(mem, w[0], info);
      if p.Going? {
        DecodeNoAssert(mem, w[1..], p.info);
      }
    }
  }

  lemma NoAssertInside(mem: seq<Byte>, kind: nat)
    requires kind + 4 <= |mem|
    ensures VlanData(mem, kind + Padded(RtaLen(mem, kind))) != AssertFailed
  {
    var data := kind + Padded(RtaLen(mem, kind));
    if data + 4 <= |mem| {
      DecodeNoAssert(mem, Walk(mem, data + 4, RtaLen(mem, data) - 4), ZERO);
    }
  }

  lemma VlanUnpadded(mem: seq<Byte>, root: nat)
    requires root + 8 <= |mem| && RtaType(mem, root) == 18 && RtaType(mem, root + 4) == 1
    requires 4 <= RtaLen(mem, root + 4) <= 104 && RtaLen(mem, root + 4) % 4 == 0
    requires At(mem, root + 8, [0x76, 0x6c, 0x61, 0x6e] + [0])
    ensures DecodeLinkInfo(mem, root) == NullDeref
  {
    hide RtaType, RtaLen, At, CString;
    CStringAt(mem, root + 8, [0x76, 0x6c, 0x61, 0x6e]);
    KindLength(mem, root + 4);
  }

  /**
   A vlan kind with data of any bytes, at least a header of them: a vlan line comes out exactly when every header
   inspected is readable and its value ends in memory. Otherwise the first that is not decides: a readable one is a
   read outside the memory, any other the read-miss exit.
  */
  lemma AnyData(mem: seq<Byte>, root: nat, kindPad: seq<Byte>, payload: seq<Byte>, dataPad: seq<Byte>, pad: seq<Byte>)
    returns (k: nat)
    requires var kind, data := Attr(1, [0x76, 0x6c, 0x61, 0x6e, 0], kindPad), Attr(2, payload, dataPad);
      && Laid(kind) && Laid(data) && Laid(RootOf(kind, EncAttr(data), pad)) && |payload| >= 4
      && At(mem, root, EncAttr(RootOf(kind, EncAttr(data), pad)))
    ensures root + 20 + |payload| <= |mem| && Headers(mem, Walk(mem, root + 20, |payload|))
    ensures var w, r := Walk(mem, root + 20, |payload|), DecodeLinkInfo(mem, root);
      if AllTaken(mem, w, |mem|) then r.Vlan?
      else FirstBad(mem, w, |mem|, k) && r == if Readable(mem, w[k]) then Overrun else ReadMiss
  {
    hide DecodeLinkInfo, At, EncAttr, Laid, Walk, Taken, Readable, AllTaken, FirstBad, ReadRegion;
    var kind, data := Attr(1, [0x76, 0x6c, 0x61, 0x6e, 0], kindPad), Attr(2, payload, dataPad);
    RootOfIn(mem, root, kind, EncAttr(data), pad);
    AttrAt(mem, root + 16, data);
    StepsToData(mem, root, RootOf(kind, EncAttr(data), pad), kind);
    k := ReadAnything(mem, root + 20, |payload|, ZERO);
  }

  /** The attribute of the program's own test, row by row: protocol, id and flags of a vlan link. */
  const ROW0: seq<Byte> := [0x30, 0x00, 0x12, 0x00, 0x09, 0x00, 0x01, 0x00]
  const ROW1: seq<Byte> := [0x76, 0x6c, 0x61, 0x6e, 0x00, 0x00, 0x00, 0x00]
  const ROW2: seq<Byte> := [0x20, 0x00, 0x02, 0x00, 0x06, 0x00, 0x05, 0x00]
  const ROW3: seq<Byte> := [0x81, 0x00, 0x00, 0x00, 0x06, 0x00, 0x01, 0x00]
  const ROW4: seq<Byte> := [0x0a, 0x00, 0x00, 0x00, 0x0c, 0x00, 0x02, 0x00]
  const ROW5: seq<Byte> := [0x01, 0x00, 0x00, 0x00, 0xff, 0xff, 0xff, 0xff]

  const SAMPLE: seq<Byte> := ROW0 + ROW1 + ROW2 + ROW3 + ROW4 + ROW5

  lemma SampleRow(k: nat, row: seq<Byte>)
    requires k < 6 && row == [ROW0, ROW1, ROW2, ROW3, ROW4, ROW5][k]
    ensures |SAMPLE| == 48 && |row| == 8 && SAMPLE[8 * k..8 * k + 8] == row
  {
  }

  /** A row of eight bytes read as two attribute headers. */
  lemma RowHeaders(mem: seq<Byte>, o: nat, row: seq<Byte>)
    requires o + 8 <= |mem| && |row| == 8 && mem[o..o + 8] == row
    ensures RtaLen(mem, o) == Half(row, 0) && RtaType(mem, o) == Half(row, 2)
    ensures RtaLen(mem, o + 4) == Half(row, 4) && RtaType(mem, o + 4) == Half(row, 6)
  {
    forall i | 0 <= i < 8 ensures mem[o + i] == row[i] { assert mem[o..o + 8][i] == mem[o + i]; }
    assert mem[o + 0] == row[0] && mem[o + 1] == row[1] && mem[o + 2] == row[2] && mem[o + 3] == row[3];
    assert mem[o + 4] == row[4] && mem[o + 5] == row[5] && mem[o + 6] == row[6] && mem[o + 7] == row[7];
  }

  /** Decoding its bytes as they stand there, with no encoder between. */
  lemma SampleDecodes()
    ensures DecodeLinkInfo(SAMPLE, 0) == Vlan(VlanInfo(0x81, 10, 0xffff_ffff_0000_0001))
  {
    var mem := SAMPLE;
    var proto, id, flags := Attr(5, mem[24..26], [0, 0]), Attr(1, mem[32..34], [0, 0]), Attr(2, mem[40..48], []);
    var attrs := [proto] + ([id] + [flags]);
    SampleHeaders();
    SampleSteps();
    SampleList(attrs, proto, id, flags);
    SampleValues();
    ReadList(mem, 20, attrs, 28, ZERO);
    SampleFold(attrs, proto, id, flags);
  }

  lemma SampleHeaders()
    ensures |SAMPLE| == 48
    ensures RtaLen(SAMPLE, 0) == 48 && RtaType(SAMPLE, 0) == 18
    ensures RtaLen(SAMPLE, 4) == 9 && RtaType(SAMPLE, 4) == 1
    ensures RtaLen(SAMPLE, 16) == 32 && RtaType(SAMPLE, 16) == 2
    ensures RtaLen(SAMPLE, 20) == 6 && RtaType(SAMPLE, 20) == 5
    ensures RtaLen(SAMPLE, 28) == 6 && RtaType(SAMPLE, 28) == 1
    ensures RtaLen(SAMPLE, 36) == 12 && RtaType(SAMPLE, 36) == 2
  {
    hide RtaLen, RtaType;
    SampleRow(0, ROW0);
    SampleRow(2, ROW2);
    SampleRow(3, ROW3);
    SampleRow(4, ROW4);
    RowHeaders(SAMPLE, 0, ROW0);
    RowHeaders(SAMPLE, 16, ROW2);
    RowHeaders(SAMPLE, 24, ROW3);
    RowHeaders(SAMPLE, 32, ROW4);
  }

  lemma SampleSteps()
    ensures DecodeLinkInfo(SAMPLE, 0) == VlanData(SAMPLE, 16)
  {
    hide RtaLen, RtaType, CString;
    SampleHeaders();
    SampleRow(1, ROW1);
    assert SAMPLE[8..8 + 5] == SAMPLE[8..16][..5] == VLAN + [0];
    CStringAt(SAMPLE, 8, VLAN);
    KindLength(SAMPLE, 4);
  }

  lemma SampleList(attrs: seq<Attr>, proto: Attr, id: Attr, flags: Attr)
    requires proto == Attr(5, SAMPLE[24..26], [0, 0]) && id == Attr(1, SAMPLE[32..34], [0, 0])
    requires flags == Attr(2, SAMPLE[40..48], []) && attrs == [proto] + ([id] + [flags])
    ensures AllVlanLaid(attrs) && ListIn(SAMPLE, 20, attrs) && Packed(attrs) == 28 == Total(attrs)
  {
    hide RtaLen, RtaType;
    SampleHeaders();
    var rest, last := [id] + [flags], [flags];
    assert attrs[1..] == rest && rest[1..] == last && last[1..] == [];
    assert Total(last) == 12 && Total(rest) == 20;
    assert Packed(last) == 12 && Packed(rest) == 20;
    assert ListIn(SAMPLE, 36, last);
    assert ListIn(SAMPLE, 28, rest);
  }

  lemma SampleValues()
    ensures |SAMPLE| == 48
    ensures Word(SAMPLE[24..26], 0, 2) == 0x81 && Word(SAMPLE[32..34], 0, 2) == 10
    ensures Word(SAMPLE[40..48], 0, 8) == 0xffff_ffff_0000_0001
  {
    hide Word;
    SampleRow(3, ROW3);
    SampleRow(4, ROW4);
    SampleRow(5, ROW5);
    FirstHalf(SAMPLE, 24, ROW3);
    FirstHalf(SAMPLE, 32, ROW4);
    WideValue(SAMPLE[40..48]);
  }

  lemma FirstHalf(mem: seq<Byte>, o: nat, row: seq<Byte>)
    requires o + 8 <= |mem| && |row| == 8 && mem[o..o + 8] == row
    ensures Word(mem[o..o + 2], 0, 2) == Half(row, 0)
  {
    assert mem[o..o + 8][0] == mem[o] && mem[o..o + 8][1] == mem[o + 1];
    HalfIsWord(mem[o..o + 2], 0);
  }

  lemma WideValue(m: seq<Byte>)
    requires m == ROW5
    ensures Word(m, 0, 8) == 0xffff_ffff_0000_0001
  {
    assert Word(m, 8, 0) == 0;
    assert Word(m, 7, 1) == 0xff;
    assert Word(m, 6, 2) == 0xffff;
    assert Word(m, 5, 3) == 0xff_ffff;
    assert Word(m, 4, 4) == 0xffff_ffff;
    assert Word(m, 3, 5) == 0xffff_ffff_00;
    assert Word(m, 2, 6) == 0xffff_ffff_0000;
    assert Word(m, 1, 7) == 0xffff_ffff_0000_00;
  }

  lemma SampleFold(attrs: seq<Attr>, proto: Attr, id: Attr, flags: Attr)
    requires AllVlanLaid(attrs) && attrs == [proto] + ([id] + [flags])
    requires proto.typ == 5 && id.typ == 1 && flags.typ == 2
    requires |proto.payload| == 2 && |id.payload| == 2 && |flags.payload| == 8
    ensures Fold(attrs, ZERO)
         == VlanInfo(Word(proto.payload, 0, 2), Word(id.payload, 0, 2), Word(flags.payload, 0, 8))
  {
    hide Word;
    var rest, last := [id] + [flags], [flags];
    assert attrs[0] == proto && attrs[1..] == rest && rest[1..] == last && last[1..] == [];
    assert VlanLaid(attrs[0]) && VlanLaid(attrs[1]) && VlanLaid(attrs[2]);
    assert VlanLaid(proto) && VlanLaid(id) && VlanLaid(flags);
    var i1 := Update(proto, ZERO);
    var i2 := Update(id, i1);
    assert Fold([], Update(flags, i2)) == Update(flags, i2);
    assert Fold(last, i2) == Update(flags, i2);
    assert Fold(rest, i1) == Fold(last, i2);
  }
}
