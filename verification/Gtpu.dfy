/** The GTP-U header: what gtp5g_push_header writes (pktinfo.c) and what the receive path reads
    back, walking the extension headers (encap.c). Sections 5.1 and 5.2.1 of TS 29.281. */
module Gtpu {
  import opened Types

  const UDP_HEADER: nat := 8
  const GTPV1: u8 := 0x30
  const FLAG_SEQ: u8 := 0x02
  const FLAG_EXT: u8 := 0x04
  const TPDU: u8 := 255
  const END_MARKER: u8 := 254
  const ECHO_REQUEST: u8 := 1
  const PDU_SESSION_CONTAINER: u8 := 0x85

  // ---------- the layout ----------

  function High(x: u16): (r: u8) { x / 256 }

  function Low(x: u16): (r: u8) { x % 256 }

  function FromBe16(a: u8, b: u8): (r: u16) { a as int * 256 + b }

  function FromBe32(a: u8, b: u8, c: u8, d: u8): (r: u32) { FromBe16(a, b) as int * 0x1_0000 + FromBe16(c, d) }

  lemma Be16Inverse(x: u16, a: u8, b: u8)
    ensures High(x) == a && Low(x) == b <==> x == FromBe16(a, b)
  {}

  lemma Be32Inverse(x: u32, a: u8, b: u8, c: u8, d: u8)
    ensures && High(x / 0x1_0000) == a && Low(x / 0x1_0000) == b
            && High(x % 0x1_0000) == c && Low(x % 0x1_0000) == d
            <==> x == FromBe32(a, b, c, d)
  {
    Be16Inverse(x / 0x1_0000, a, b);
    Be16Inverse(x % 0x1_0000, c, d);
    hide High, Low, FromBe16;
    assert x == x / 0x1_0000 * 0x1_0000 + x % 0x1_0000;
  }

  /** The length byte of an extension header counts words of four bytes. */
  function ExtensionLength(units: u8): (r: nat) { units as int * 4 }

  /** The eight bytes every header has, and the four that follow when a flag is set. */
  function Mandatory(flags: u8, kind: u8, length: u16, teid: u32): (r: seq<u8>) {
    [flags, kind, High(length), Low(length), High(teid / 0x1_0000), Low(teid / 0x1_0000),
     High(teid % 0x1_0000), Low(teid % 0x1_0000)]
  }

  function OptionalFields(seqNumber: u16, npdu: u8, next: u8): (r: seq<u8>) {
    [High(seqNumber), Low(seqNumber), npdu, next]
  }

  /** An extension header: the type its predecessor names, and what lies between its length byte
      and the type byte of the next. */
  datatype Extension = Extension(kind: u8, content: seq<u8>) {
    /** Whole in units of four bytes, at least one and at most 255. */
    ghost predicate WellFormed() { kind != 0 && 2 <= |content| <= 1018 && |content| % 4 == 2 }
  }

  ghost predicate AllWellFormed(exts: seq<Extension>) { forall i :: 0 <= i < |exts| ==> exts[i].WellFormed() }

  function FirstKind(exts: seq<Extension>): (r: u8) { if exts == [] then 0 else exts[0].kind }

  function Framed(units: u8, content: seq<u8>, next: u8): (r: seq<u8>)
    ensures |r| == |content| + 2 && r[0] == units && r[|r| - 1] == next
  {
    [units] + content + [next]
  }

  ghost function ExtensionBytes(exts: seq<Extension>): (r: seq<u8>)
    requires AllWellFormed(exts)
  {
    if exts == [] then []
    else Framed((|exts[0].content| + 2) / 4, exts[0].content, FirstKind(exts[1..])) + ExtensionBytes(exts[1..])
  }

  datatype Optional = Optional(seqNumber: u16, npdu: u8, exts: seq<Extension>)

  datatype Header = Header(flags: u8, kind: u8, length: u16, teid: u32, optional: Option<Optional>) {
    ghost predicate WellFormed() {
      && flags / 32 == 1 && (kind == TPDU || kind == END_MARKER)
      && (optional.Some? <==> flags % 8 != 0)
      && (optional.Some? ==> AllWellFormed(optional.value.exts))
    }

    ghost function Bytes(): (r: seq<u8>)
      requires WellFormed()
    {
      Mandatory(flags, kind, length, teid) + Tail()
    }

    ghost function Tail(): (r: seq<u8>)
      requires WellFormed()
    {
      if optional.None? then [] else
        OptionalFields(optional.value.seqNumber, optional.value.npdu, FirstKind(optional.value.exts)) +
        ExtensionBytes(optional.value.exts)
    }
  }

  /** The datagram carries a user-plane message whose headers end at byte end. */
  ghost predicate Carries(data: seq<u8>, teid: u32, kind: u8, end: nat) {
    UDP_HEADER <= end <= |data| &&
    exists h: Header :: h.WellFormed() && h.teid == teid && h.kind == kind && data[UDP_HEADER..end] == h.Bytes()
  }

  /** From byte at, whose type byte is the one before, extension headers fill the bytes up to end. */
  ghost predicate Chain(data: seq<u8>, at: nat, end: nat) {
    1 <= at <= end <= |data| &&
    exists exts :: AllWellFormed(exts) && data[at - 1] == FirstKind(exts) && data[at..end] == ExtensionBytes(exts)
  }

  // ---------- one step of the walk ----------

  lemma ChainEmpty(data: seq<u8>, at: nat, end: nat)
    requires 1 <= at <= |data| && data[at - 1] == 0
    ensures Chain(data, at, end) <==> end == at
  {
    if end == at {
      var exts: seq<Extension> := [];
      assert AllWellFormed(exts) && data[at..end] == ExtensionBytes(exts);
    }
  }

  lemma ChainForward(data: seq<u8>, at: nat, end: nat, exts: seq<Extension>)
    requires 1 <= at <= end <= |data| && exts != [] && AllWellFormed(exts)
    requires data[at..end] == ExtensionBytes(exts)
    ensures at < |data| && data[at] > 0 && at + ExtensionLength(data[at]) <= end
    ensures Chain(data, at + ExtensionLength(data[at]), end)
  {
    var units, content, rest := (|exts[0].content| + 2) / 4, exts[0].content, exts[1..];
    assert exts[0].WellFormed() && AllWellFormed(rest);
    assert ExtensionBytes(exts) == Framed(units, content, FirstKind(rest)) + ExtensionBytes(rest);
    hide ExtensionBytes, AllWellFormed, FirstKind;
    FramedForward(data, at, end, units, content, FirstKind(rest), ExtensionBytes(rest));
  }

  /** A frame at the start tells where the next one starts. */
  lemma FramedForward(data: seq<u8>, at: nat, end: nat, units: u8, content: seq<u8>, next: u8, tail: seq<u8>)
    requires 1 <= at <= end <= |data| && data[at..end] == Framed(units, content, next) + tail
    requires units > 0 && |content| + 2 == units as int * 4
    ensures at < |data| && data[at] == units
    ensures var after := at + ExtensionLength(units);
            at < after <= end && data[after - 1] == next && data[after..end] == tail
  {
    var head := Framed(units, content, next);
    hide Framed;
    SplitIff(data, at, end, head, tail);
    assert data[at + 0] == head[0] && data[at + (|head| - 1)] == head[|head| - 1];
  }

  lemma SplitIff(data: seq<u8>, at: nat, end: nat, head: seq<u8>, tail: seq<u8>)
    requires at <= end <= |data|
    ensures data[at..end] == head + tail <==>
              && at + |head| <= end && data[at + |head|..end] == tail
              && forall i :: 0 <= i < |head| ==> data[at + i] == head[i]
  {
    if data[at..end] == head + tail {
      forall i | 0 <= i < |head| ensures data[at + i] == head[i] {
        assert data[at..end][i] == head[i];
      }
      assert data[at + |head|..end] == data[at..end][|head|..] == tail;
    }
    if at + |head| <= end && data[at + |head|..end] == tail && forall i :: 0 <= i < |head| ==> data[at + i] == head[i] {
      assert data[at..at + |head|] == head;
      assert data[at..end] == data[at..at + |head|] + data[at + |head|..end];
    }
  }

  lemma ChainBackward(data: seq<u8>, at: nat, end: nat)
    requires 1 <= at < |data| && data[at - 1] != 0 && data[at] > 0 && Chain(data, at + ExtensionLength(data[at]), end)
    ensures Chain(data, at, end)
  {
    var next := at + ExtensionLength(data[at]);
    var rest :| AllWellFormed(rest) && data[next - 1] == FirstKind(rest) && data[next..end] == ExtensionBytes(rest);
    var first := Extension(data[at - 1], data[at + 1..next - 1]);
    assert first.WellFormed();
    OneMoreExtension(first, rest);
    var exts := [first] + rest;
    hide ExtensionBytes, AllWellFormed, FirstKind;
    var head, tail := Framed(data[at], first.content, data[next - 1]), ExtensionBytes(rest);
    assert ExtensionBytes(exts) == head + tail && data[at - 1] == FirstKind(exts);
    FramedSlice(data, at, next);
    hide Framed;
    SplitIff(data, at, end, head, tail);
  }

  lemma FramedSlice(data: seq<u8>, at: nat, next: nat)
    requires at + 2 <= next <= |data|
    ensures Framed(data[at], data[at + 1..next - 1], data[next - 1]) == data[at..next]
  {}

  lemma OneMoreExtension(first: Extension, rest: seq<Extension>)
    requires first.WellFormed() && AllWellFormed(rest)
    ensures AllWellFormed([first] + rest) && FirstKind([first] + rest) == first.kind
    ensures ExtensionBytes([first] + rest) ==
              Framed((|first.content| + 2) / 4, first.content, FirstKind(rest)) + ExtensionBytes(rest)
  {
    assert ([first] + rest)[1..] == rest;
  }

  lemma ChainStep(data: seq<u8>, at: nat, end: nat)
    requires 1 <= at <= |data| && data[at - 1] != 0
    ensures Chain(data, at, end) <==>
              at < |data| && data[at] > 0 && Chain(data, at + ExtensionLength(data[at]), end)
  {
    if Chain(data, at, end) {
      var exts :| AllWellFormed(exts) && data[at - 1] == FirstKind(exts) && data[at..end] == ExtensionBytes(exts);
      ChainForward(data, at, end, exts);
    }
    if at < |data| && data[at] > 0 && Chain(data, at + ExtensionLength(data[at]), end) {
      ChainBackward(data, at, end);
    }
  }

  // ---------- the walk ----------

  /** The while loop over extension headers: it ends on every input, reads inside the packet
      only, and finds the end of the chain exactly when the bytes spell one. */
  method WalkExtensions(data: seq<u8>, start: nat) returns (end: Option<nat>)
    requires 1 <= start <= |data|
    ensures end.Some? ==> start <= end.value <= |data|
    ensures forall e: nat :: Chain(data, start, e) <==> end == Some(e)
  {
    hide Chain;
    var hdrlen := start;
    while data[hdrlen - 1] != 0
      invariant start <= hdrlen <= |data|
      invariant forall e: nat :: Chain(data, start, e) <==> Chain(data, hdrlen, e)
      decreases |data| - hdrlen
    {
      forall e: nat ensures Chain(data, hdrlen, e) <==>
                              hdrlen < |data| && data[hdrlen] > 0 &&
                              Chain(data, hdrlen + ExtensionLength(data[hdrlen]), e) {
        ChainStep(data, hdrlen, e);
      }
      if |data| < hdrlen + 1 { return None; }
      var extlen := ExtensionLength(data[hdrlen]);
      if extlen == 0 { return None; }
      hdrlen := hdrlen + extlen;
      if |data| < hdrlen {
        NoChainPast(data, hdrlen);
        return None;
      }
    }
    forall e: nat ensures Chain(data, hdrlen, e) <==> e == hdrlen { ChainEmpty(data, hdrlen, e); }
    return Some(hdrlen);
  }

  lemma NoChainPast(data: seq<u8>, at: nat)
    requires |data| < at
    ensures forall e: nat :: !Chain(data, at, e)
  {}

  datatype Outcome = Dropped | ToApp | Echo | Deliver(teid: u32, kind: u8, hdrlen: nat)

  /** Reading the mandatory part. */
  lemma MandatoryIff(data: seq<u8>, end: nat, flags: u8, kind: u8, length: u16, teid: u32, tail: seq<u8>)
    requires UDP_HEADER <= end <= |data|
    ensures data[UDP_HEADER..end] == Mandatory(flags, kind, length, teid) + tail <==>
              && 16 <= end && data[8] == flags && data[9] == kind
              && length == FromBe16(data[10], data[11])
              && teid == FromBe32(data[12], data[13], data[14], data[15])
              && data[16..end] == tail
  {
    var head := Mandatory(flags, kind, length, teid);
    SplitIff(data, UDP_HEADER, end, head, tail);
    if end >= 16 {
      Be16Inverse(length, data[10], data[11]);
      Be32Inverse(teid, data[12], data[13], data[14], data[15]);
      hide High, Low, FromBe16, FromBe32;
      ByIndex(data, 8, head);
    }
  }

  lemma ByIndex(data: seq<u8>, at: nat, head: seq<u8>)
    requires |head| == 8 && at + 8 <= |data|
    ensures (forall i :: 0 <= i < |head| ==> data[at + i] == head[i]) <==>
              && data[at] == head[0] && data[at + 1] == head[1] && data[at + 2] == head[2] && data[at + 3] == head[3]
              && data[at + 4] == head[4] && data[at + 5] == head[5]
              && data[at + 6] == head[6] && data[at + 7] == head[7]
  {
    if forall i :: 0 <= i < |head| ==> data[at + i] == head[i] {
      assert data[at + 0] == head[0];
    }
  }

  /** Reading the optional part, with the chain behind it. */
  lemma OptionalIff(data: seq<u8>, end: nat, seqNumber: u16, npdu: u8, next: u8, tail: seq<u8>)
    requires 16 <= end <= |data|
    ensures data[16..end] == OptionalFields(seqNumber, npdu, next) + tail <==>
              && 20 <= end && seqNumber == FromBe16(data[16], data[17]) && npdu == data[18] && next == data[19]
              && data[20..end] == tail
  {
    var head := OptionalFields(seqNumber, npdu, next);
    SplitIff(data, 16, end, head, tail);
    if end >= 20 {
      Be16Inverse(seqNumber, data[16], data[17]);
      hide High, Low, FromBe16;
      if forall i :: 0 <= i < |head| ==> data[16 + i] == head[i] {
        assert data[16 + 0] == head[0] && data[16 + 1] == head[1] && data[16 + 2] == head[2] && data[16 + 3] == head[3];
      }
    }
  }

  ghost predicate UserPlane(data: seq<u8>) {
    |data| >= 16 && data[8] / 32 == 1 && (data[9] == TPDU || data[9] == END_MARKER)
  }

  lemma CarriesChain(data: seq<u8>, teid: u32, kind: u8, end: nat)
    requires UserPlane(data) && |data| >= 20 && data[8] % 8 != 0
    ensures Carries(data, teid, kind, end) <==>
              teid == FromBe32(data[12], data[13], data[14], data[15]) && kind == data[9] && Chain(data, 20, end)
  {
    if Carries(data, teid, kind, end) {
      var h: Header :| h.WellFormed() && h.teid == teid && h.kind == kind && data[UDP_HEADER..end] == h.Bytes();
      MandatoryIff(data, end, h.flags, kind, h.length, teid, h.Tail());
      var o := h.optional.value;
      OptionalIff(data, end, o.seqNumber, o.npdu, FirstKind(o.exts), ExtensionBytes(o.exts));
    }
    if teid == FromBe32(data[12], data[13], data[14], data[15]) && kind == data[9] && Chain(data, 20, end) {
      var exts :| AllWellFormed(exts) && data[19] == FirstKind(exts) && data[20..end] == ExtensionBytes(exts);
      var o := Optional(FromBe16(data[16], data[17]), data[18], exts);
      var h := Header(data[8], kind, FromBe16(data[10], data[11]), teid, Some(o));
      OptionalIff(data, end, o.seqNumber, o.npdu, FirstKind(exts), ExtensionBytes(exts));
      MandatoryIff(data, end, h.flags, kind, h.length, teid, h.Tail());
      assert h.WellFormed() && data[UDP_HEADER..end] == h.Bytes();
    }
  }

  lemma CarriesBare(data: seq<u8>, teid: u32, kind: u8, end: nat)
    requires UserPlane(data) && data[8] % 8 == 0
    ensures Carries(data, teid, kind, end) <==>
              teid == FromBe32(data[12], data[13], data[14], data[15]) && kind == data[9] && end == 16
  {
    if Carries(data, teid, kind, end) {
      var h: Header :| h.WellFormed() && h.teid == teid && h.kind == kind && data[UDP_HEADER..end] == h.Bytes();
      MandatoryIff(data, end, h.flags, kind, h.length, teid, h.Tail());
    }
    if teid == FromBe32(data[12], data[13], data[14], data[15]) && kind == data[9] && end == 16 {
      var h := Header(data[8], kind, FromBe16(data[10], data[11]), teid, None);
      MandatoryIff(data, end, h.flags, kind, h.length, teid, []);
      assert h.WellFormed() && data[UDP_HEADER..end] == h.Bytes();
    }
  }

  lemma CarriesFixed(data: seq<u8>, teid: u32, kind: u8, end: nat)
    requires Carries(data, teid, kind, end)
    ensures UserPlane(data) && (data[8] % 8 != 0 ==> |data| >= 20)
  {
    var h: Header :| h.WellFormed() && h.teid == teid && h.kind == kind && data[UDP_HEADER..end] == h.Bytes();
    MandatoryIff(data, end, h.flags, kind, h.length, teid, h.Tail());
  }

  /** gtp1u_udp_encap_recv up to the search for a rule: a packet is delivered exactly when its
      bytes, after the UDP header, start with a well-formed GTP-U header, and then with that
      header's tunnel, type and length. */
  method Receive(data: seq<u8>) returns (out: Outcome)
    ensures forall teid, kind, end :: Carries(data, teid, kind, end) <==> out == Deliver(teid, kind, end)
    ensures out == ToApp <==> |data| >= 16 && (data[8] / 32 != 1 || data[9] !in [1, 254, 255])
    ensures out == Echo <==> |data| >= 16 && data[8] / 32 == 1 && data[9] == 1
  {
    forall teid, kind, end | Carries(data, teid, kind, end)
      ensures UserPlane(data) && (data[8] % 8 != 0 ==> |data| >= 20)
    {
      CarriesFixed(data, teid, kind, end);
    }
    hide Carries, Chain;
    var hdrlen := 16;
    if |data| < hdrlen { return Dropped; }
    var flags, kind := data[8], data[9];
    if flags / 32 != 1 { return ToApp; }
    var teid := FromBe32(data[12], data[13], data[14], data[15]);
    if kind == ECHO_REQUEST { return Echo; }
    if kind != TPDU && kind != END_MARKER { return ToApp; }
    if flags % 8 != 0 {
      hdrlen := 20;
      if |data| < hdrlen { return Dropped; }
      forall t, k, e: nat ensures Carries(data, t, k, e) <==> t == teid && k == kind && Chain(data, 20, e) {
        CarriesChain(data, t, k, e);
      }
      var end := WalkExtensions(data, hdrlen);
      if end == None { return Dropped; }
      hdrlen := end.value;
    } else {
      forall t, k, e: nat ensures Carries(data, t, k, e) <==> t == teid && k == kind && e == 16 {
        CarriesBare(data, t, k, e);
      }
    }
    return Deliver(teid, kind, hdrlen);
  }

  // ---------- the writer ----------

  class SkBuff {
    var data: seq<u8>

    constructor (payload: seq<u8>)
      ensures data == payload
    {
      data := payload;
    }

    method Push(bytes: seq<u8>)
      modifies this
      ensures data == bytes + old(data)
    {
      data := bytes + data;
    }
  }

  datatype PktInfo = PktInfo(teid: u32, qfi: u8, pduType: u8, seqNumber: u16)

  const UPLINK: u8 := 0x10

  function Container(info: PktInfo): (r: Extension) {
    Extension(PDU_SESSION_CONTAINER, [if info.pduType == UPLINK then UPLINK else 0, info.qfi])
  }

  /** The header a packet gets: a PDU session container when there is a QFI, the sequence number
      when the device numbers its packets. */
  function HeaderFor(info: PktInfo, seqEnabled: bool, payload: nat): (r: Header) {
    var opt := info.qfi > 0 || seqEnabled;
    Header(GTPV1 + (if info.qfi > 0 then FLAG_EXT else 0) + (if seqEnabled then FLAG_SEQ else 0), TPDU,
           (payload + if opt then 8 else 0) % 0x1_0000, info.teid,
           if !opt then None else
             Some(Optional(if seqEnabled then info.seqNumber else 0, 0,
                           if info.qfi > 0 then [Container(info)] else [])))
  }

  function ContainerBytes(info: PktInfo): (r: seq<u8>) {
    [1, if info.pduType == UPLINK then UPLINK else 0, info.qfi, 0]
  }

  lemma ContainerOnly(o: Optional, info: PktInfo)
    requires o.exts == if info.qfi > 0 then [Container(info)] else []
    ensures AllWellFormed(o.exts)
    ensures ExtensionBytes(o.exts) == if info.qfi > 0 then ContainerBytes(info) else []
  {
    if info.qfi > 0 {
      assert o.exts[1..] == [];
      assert ExtensionBytes(o.exts[1..]) == [];
    }
  }

  /** The bytes of the header, as the three parts that are pushed. */
  lemma HeaderBytes(info: PktInfo, seqEnabled: bool, payload: nat)
    ensures var h := HeaderFor(info, seqEnabled, payload); var opt := info.qfi > 0 || seqEnabled;
            && h.WellFormed()
            && h.Bytes() ==
                 Mandatory(GTPV1 + (if info.qfi > 0 then FLAG_EXT else 0) + (if seqEnabled then FLAG_SEQ else 0), TPDU,
                           (payload + if opt then 8 else 0) % 0x1_0000, info.teid) +
                 ((if opt then OptionalFields(if seqEnabled then info.seqNumber else 0, 0,
                                              if info.qfi > 0 then PDU_SESSION_CONTAINER else 0) else []) +
                  (if info.qfi > 0 then ContainerBytes(info) else []))
  {
    var h := HeaderFor(info, seqEnabled, payload);
    if h.optional.Some? { ContainerOnly(h.optional.value, info); }
    hide Mandatory, OptionalFields, ExtensionBytes, ContainerBytes;
  }

  lemma Regroup(a: seq<u8>, b: seq<u8>, c: seq<u8>)
    ensures a + (b + c) == (a + b) + c && (a == [] ==> a + b == b)
  {}

  /** The two optional blocks, innermost first. */
  method PushOptional(skb: SkBuff, info: PktInfo, seqEnabled: bool) returns (ext: bool, opt: bool)
    modifies skb
    ensures ext == (info.qfi > 0) && opt == (info.qfi > 0 || seqEnabled)
    ensures skb.data ==
              ((if opt then OptionalFields(if seqEnabled then info.seqNumber else 0, 0,
                                           if ext then PDU_SESSION_CONTAINER else 0) else []) +
               (if ext then ContainerBytes(info) else [])) + old(skb.data)
  {
    hide *;
    var nextKind: u8, seqNumber: u16 := 0, 0;
    ext, opt := false, false;
    ghost var container: seq<u8> := [];
    if info.qfi > 0 {
      ext := true;
      skb.Push(ContainerBytes(info));
      container := ContainerBytes(info);
      opt := true;
      nextKind := PDU_SESSION_CONTAINER;
    }
    Regroup([], [], skb.data);
    Regroup([], container, old(skb.data));
    if seqEnabled {
      opt := true;
      seqNumber := info.seqNumber;
    }
    if opt {
      skb.Push(OptionalFields(seqNumber, 0, nextKind));
      Regroup(OptionalFields(seqNumber, 0, nextKind), container, old(skb.data));
    }
  }

  /** gtp5g_push_header: the packet becomes the header followed by what it was. */
  method PushHeader(skb: SkBuff, info: PktInfo, seqEnabled: bool)
    modifies skb
    ensures HeaderFor(info, seqEnabled, |old(skb.data)|).WellFormed()
    ensures skb.data == HeaderFor(info, seqEnabled, |old(skb.data)|).Bytes() + old(skb.data)
  {
    HeaderBytes(info, seqEnabled, |skb.data|);
    hide *;
    var payloadLen := |skb.data|;
    var ext, opt := PushOptional(skb, info, seqEnabled);
    if opt { payloadLen := payloadLen + 8; }
    var flags: u8 := GTPV1;
    if ext { flags := flags + FLAG_EXT; }
    if seqEnabled { flags := flags + FLAG_SEQ; }
    ghost var optional := skb.data;
    skb.Push(Mandatory(flags, TPDU, payloadLen % 0x1_0000, info.teid));
    Regroup(Mandatory(flags, TPDU, payloadLen % 0x1_0000, info.teid),
            (if opt then OptionalFields(if seqEnabled then info.seqNumber else 0, 0,
                                        if ext then PDU_SESSION_CONTAINER else 0) else []) +
            (if ext then ContainerBytes(info) else []), old(skb.data));
  }

  /** What was written is read back: the tunnel, and a header length after which the payload
      stands untouched, for every payload, QFI and sequence setting. */
  lemma WrittenIsCarried(udp: seq<u8>, info: PktInfo, seqEnabled: bool, payload: seq<u8>)
    requires |udp| == UDP_HEADER
    ensures var h := HeaderFor(info, seqEnabled, |payload|);
            h.WellFormed() &&
            var data := udp + (h.Bytes() + payload);
            var end := UDP_HEADER + |h.Bytes()|;
            Carries(data, info.teid, TPDU, end) && data[end..] == payload
  {
    var h := HeaderFor(info, seqEnabled, |payload|);
    HeaderBytes(info, seqEnabled, |payload|);
    assert h.teid == info.teid && h.kind == TPDU;
    hide HeaderFor, Header.Bytes, Header.WellFormed, Mandatory, OptionalFields, ContainerBytes;
    Between(udp, h.Bytes(), payload);
  }

  lemma Between(a: seq<u8>, b: seq<u8>, c: seq<u8>)
    ensures var s := a + (b + c); s[|a|..|a| + |b|] == b && s[|a| + |b|..] == c
  {}

  /** The writer followed by the reader. */
  method PushThenReceive(udp: seq<u8>, info: PktInfo, seqEnabled: bool, payload: seq<u8>)
    returns (out: Outcome, inner: seq<u8>)
    requires |udp| == UDP_HEADER
    ensures out.Deliver? && out.teid == info.teid && out.kind == TPDU && inner == payload
  {
    var skb := new SkBuff(payload);
    PushHeader(skb, info, seqEnabled);
    WrittenIsCarried(udp, info, seqEnabled, payload);
    skb.Push(udp);
    out := Receive(skb.data);
    inner := skb.data[out.hdrlen..];
  }

  /** The length field counts the bytes after the mandatory header exactly when the packet has a
      QFI or carries no sequence number, and the count fits 16 bits; with a sequence number alone
      the field is four too large. */
  lemma LengthFieldIff(info: PktInfo, seqEnabled: bool, payload: nat)
    ensures var h := HeaderFor(info, seqEnabled, payload);
            h.WellFormed() &&
            var after := |h.Bytes()| - 8 + payload;
            h.length == after <==> (info.qfi > 0 || !seqEnabled) && after < 0x1_0000
  {
    var h := HeaderFor(info, seqEnabled, payload);
    HeaderBytes(info, seqEnabled, payload);
    hide Header.Bytes, Header.WellFormed;
  }
}
