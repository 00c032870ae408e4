/** The GTP-U header bit by bit, and that it reads in one way only (pktinfo.c; section 5.1 of
    TS 29.281 and section 5.5.2 of TS 38.415). */
module GtpuBytes {
  import opened Types
  import opened Bits
  import opened Gtpu

  /** The flag byte: version one, protocol type GTP, and of the three lowest bits the third says
      that an extension header follows, the second that sequence numbers are on, and the first, for
      N-PDU numbers, is never set. */
  lemma FlagBits(info: PktInfo, seqEnabled: bool, payload: nat)
    ensures var flags := HeaderFor(info, seqEnabled, payload).flags;
            && flags / 32 == 1 && Bit(flags, 4) == 1 && Bit(flags, 3) == 0
            && (Bit(flags, 2) == 1 <==> info.qfi > 0)
            && (Bit(flags, 1) == 1 <==> seqEnabled)
            && Bit(flags, 0) == 0
  {
    var flags := HeaderFor(info, seqEnabled, payload).flags;
    assert flags == 0x30 || flags == 0x32 || flags == 0x34 || flags == 0x36;
  }

  /** Every byte that is written. The four bytes after the first eight are there if a flag is set,
      and four more if there is a QFI: one unit of length, the direction, the QFI, and no further
      extension. */
  lemma WrittenBytes(info: PktInfo, seqEnabled: bool, payload: nat)
    ensures var h := HeaderFor(info, seqEnabled, payload);
            var opt := info.qfi > 0 || seqEnabled;
            h.WellFormed() &&
            var b := h.Bytes();
            && |b| == (if info.qfi > 0 then 16 else if opt then 12 else 8)
            && b[0] == h.flags && b[1] == 255
            && b[2] as int * 256 + b[3] as int == (payload + if opt then 8 else 0) % 65536
            && b[4] as int * 0x100_0000 + b[5] as int * 0x1_0000 + b[6] as int * 256 + b[7] as int == info.teid
            && (opt ==> b[8] as int * 256 + b[9] as int == (if seqEnabled then info.seqNumber as int else 0))
            && (opt ==> b[10] == 0 && b[11] == if info.qfi > 0 then 0x85 else 0)
            && (info.qfi > 0 ==> b[12..] == [1, if info.pduType == 0x10 then 0x10 else 0, info.qfi, 0])
  {
    HeaderBytes(info, seqEnabled, payload);
    HighLow(info.teid);
    hide Header.Bytes, Header.WellFormed;
    var h := HeaderFor(info, seqEnabled, payload);
    var m := Mandatory(h.flags, 255, h.length, info.teid);
    var o := if h.optional.None? then [] else
               OptionalFields(h.optional.value.seqNumber, 0, if info.qfi > 0 then 0x85 else 0);
    var c := if info.qfi > 0 then ContainerBytes(info) else [];
    assert h.Bytes() == m + (o + c);
    assert info.qfi > 0 ==> h.Bytes()[12..] == c;
  }

  lemma HighLow(x: u32)
    ensures High(x / 0x1_0000) as int * 0x100_0000 + Low(x / 0x1_0000) as int * 0x1_0000
            + High(x % 0x1_0000) as int * 256 + Low(x % 0x1_0000) as int == x
  {}

  // ---------- reading ----------

  /** Extension headers end where they say, whatever follows them. */
  lemma {:induction false} ExtensionsReadOnce(e1: seq<Extension>, p1: seq<u8>, e2: seq<Extension>, p2: seq<u8>)
    requires AllWellFormed(e1) && AllWellFormed(e2) && FirstKind(e1) == FirstKind(e2)
    requires ExtensionBytes(e1) + p1 == ExtensionBytes(e2) + p2
    ensures e1 == e2 && p1 == p2
    decreases |e1|
  {
    if e1 == [] || e2 == [] {
      assert e1 == [] && e2 == [];
      assert ExtensionBytes(e1) + p1 == p1 && ExtensionBytes(e2) + p2 == p2;
    } else {
      assert e1[0].WellFormed() && e2[0].WellFormed() && AllWellFormed(e1[1..]) && AllWellFormed(e2[1..]);
      FirstReadOnce(e1, p1, e2, p2);
      ExtensionsReadOnce(e1[1..], p1, e2[1..], p2);
    }
  }

  lemma FirstReadOnce(e1: seq<Extension>, p1: seq<u8>, e2: seq<Extension>, p2: seq<u8>)
    requires AllWellFormed(e1) && AllWellFormed(e2) && e1 != [] && e2 != [] && e1[0].kind == e2[0].kind
    requires AllWellFormed(e1[1..]) && AllWellFormed(e2[1..])
    requires ExtensionBytes(e1) + p1 == ExtensionBytes(e2) + p2
    ensures e1[0] == e2[0] && FirstKind(e1[1..]) == FirstKind(e2[1..])
    ensures ExtensionBytes(e1[1..]) + p1 == ExtensionBytes(e2[1..]) + p2
  {
    var u1 := FirstFramed(e1, p1);
    var u2 := FirstFramed(e2, p2);
    hide ExtensionBytes, FirstKind, AllWellFormed, Framed;
    FramedReadsOnce(u1, e1[0].content, FirstKind(e1[1..]), ExtensionBytes(e1[1..]) + p1,
                    u2, e2[0].content, FirstKind(e2[1..]), ExtensionBytes(e2[1..]) + p2);
  }

  lemma FirstFramed(exts: seq<Extension>, p: seq<u8>) returns (units: u8)
    requires AllWellFormed(exts) && exts != [] && AllWellFormed(exts[1..])
    ensures |exts[0].content| == 4 * units - 2
    ensures ExtensionBytes(exts) + p ==
              Framed(units, exts[0].content, FirstKind(exts[1..])) + (ExtensionBytes(exts[1..]) + p)
  {
    assert exts[0].WellFormed();
    units := (|exts[0].content| + 2) / 4;
    var f, b := Framed(units, exts[0].content, FirstKind(exts[1..])), ExtensionBytes(exts[1..]);
    assert ExtensionBytes(exts) == f + b;
    Regroup(f, b, p);
  }

  lemma FramedReadsOnce(u1: u8, c1: seq<u8>, k1: u8, t1: seq<u8>, u2: u8, c2: seq<u8>, k2: u8, t2: seq<u8>)
    requires |c1| == 4 * u1 - 2 && |c2| == 4 * u2 - 2
    requires Framed(u1, c1, k1) + t1 == Framed(u2, c2, k2) + t2
    ensures c1 == c2 && k1 == k2 && t1 == t2
  {
    var f1, f2 := Framed(u1, c1, k1), Framed(u2, c2, k2);
    assert (f1 + t1)[0] == f1[0] && (f2 + t2)[0] == f2[0];
    Split(f1, t1, f2, t2);
    assert f1[1..|f1| - 1] == c1 && f2[1..|f2| - 1] == c2;
  }

  /** A well-formed header is determined by its bytes, whatever follows them. */
  lemma HeaderReadsOnce(h1: Header, p1: seq<u8>, h2: Header, p2: seq<u8>)
    requires h1.WellFormed() && h2.WellFormed() && h1.Bytes() + p1 == h2.Bytes() + p2
    ensures h1 == h2 && p1 == p2
  {
    var m1, m2 := Mandatory(h1.flags, h1.kind, h1.length, h1.teid), Mandatory(h2.flags, h2.kind, h2.length, h2.teid);
    var t1, t2 := h1.Tail(), h2.Tail();
    assert h1.Bytes() == m1 + t1 && h2.Bytes() == m2 + t2;
    Regroup(m1, t1, p1);
    Regroup(m2, t2, p2);
    Split(m1, t1 + p1, m2, t2 + p2);
    MandatoryReadsOnce(h1, h2);
    TailReadsOnce(h1, p1, h2, p2);
  }

  lemma TailReadsOnce(h1: Header, p1: seq<u8>, h2: Header, p2: seq<u8>)
    requires h1.WellFormed() && h2.WellFormed() && h1.flags == h2.flags && h1.Tail() + p1 == h2.Tail() + p2
    ensures h1.optional == h2.optional && p1 == p2
  {
    if h1.optional.None? {
      assert h1.Tail() + p1 == p1 && h2.Tail() + p2 == p2;
    } else {
      var o1, o2 := h1.optional.value, h2.optional.value;
      var f1 := OptionalFields(o1.seqNumber, o1.npdu, FirstKind(o1.exts));
      var f2 := OptionalFields(o2.seqNumber, o2.npdu, FirstKind(o2.exts));
      var b1, b2 := ExtensionBytes(o1.exts), ExtensionBytes(o2.exts);
      Regroup(f1, b1, p1);
      Regroup(f2, b2, p2);
      Split(f1, b1 + p1, f2, b2 + p2);
      OptionalReadsOnce(o1, o2);
      ExtensionsReadOnce(o1.exts, p1, o2.exts, p2);
    }
  }

  lemma OptionalReadsOnce(o1: Optional, o2: Optional)
    requires OptionalFields(o1.seqNumber, o1.npdu, FirstKind(o1.exts))
             == OptionalFields(o2.seqNumber, o2.npdu, FirstKind(o2.exts))
    ensures o1.seqNumber == o2.seqNumber && o1.npdu == o2.npdu && FirstKind(o1.exts) == FirstKind(o2.exts)
  {
    var f1 := OptionalFields(o1.seqNumber, o1.npdu, FirstKind(o1.exts));
    var f2 := OptionalFields(o2.seqNumber, o2.npdu, FirstKind(o2.exts));
    assert f1[0] == f2[0] && f1[1] == f2[1] && f1[2] == f2[2] && f1[3] == f2[3];
    Be16Inverse(o1.seqNumber, f2[0], f2[1]);
    Be16Inverse(o2.seqNumber, f2[0], f2[1]);
  }

  lemma Split(a1: seq<u8>, b1: seq<u8>, a2: seq<u8>, b2: seq<u8>)
    requires |a1| == |a2| && a1 + b1 == a2 + b2
    ensures a1 == a2 && b1 == b2
  {
    assert (a1 + b1)[..|a1|] == a1 && (a2 + b2)[..|a1|] == a2;
    assert (a1 + b1)[|a1|..] == b1 && (a2 + b2)[|a1|..] == b2;
  }

  lemma MandatoryReadsOnce(h1: Header, h2: Header)
    requires Mandatory(h1.flags, h1.kind, h1.length, h1.teid) == Mandatory(h2.flags, h2.kind, h2.length, h2.teid)
    ensures h1.flags == h2.flags && h1.kind == h2.kind && h1.length == h2.length && h1.teid == h2.teid
  {
    var m := Mandatory(h2.flags, h2.kind, h2.length, h2.teid);
    assert Mandatory(h1.flags, h1.kind, h1.length, h1.teid)[0] == m[0];
    assert Mandatory(h1.flags, h1.kind, h1.length, h1.teid)[1] == m[1];
    Be16Inverse(h1.length, m[2], m[3]);
    Be16Inverse(h2.length, m[2], m[3]);
    Be32Inverse(h1.teid, m[4], m[5], m[6], m[7]);
    Be32Inverse(h2.teid, m[4], m[5], m[6], m[7]);
    hide High, Low, FromBe16, FromBe32;
  }

  /** Whoever reads a well-formed header off a written packet gets the packet's tunnel, its sequence
      number if they are on, and, if it has a QFI, exactly one extension header, of type 0x85, with
      the direction (0x10 for uplink, 0 otherwise) and the QFI; the payload follows. */
  lemma WrittenIsRead(info: PktInfo, seqEnabled: bool, payload: seq<u8>, h: Header, rest: seq<u8>)
    requires HeaderFor(info, seqEnabled, |payload|).WellFormed() && h.WellFormed()
    requires h.Bytes() + rest == HeaderFor(info, seqEnabled, |payload|).Bytes() + payload
    ensures rest == payload && h.kind == 255 && h.teid == info.teid
    ensures h.optional.Some? <==> info.qfi > 0 || seqEnabled
    ensures h.optional.Some? ==>
              && h.optional.value.seqNumber == (if seqEnabled then info.seqNumber else 0)
              && h.optional.value.npdu == 0
              && h.optional.value.exts ==
                 if info.qfi > 0 then [Extension(0x85, [if info.pduType == 0x10 then 0x10 else 0, info.qfi])] else []
  {
    HeaderReadsOnce(h, rest, HeaderFor(info, seqEnabled, |payload|), payload);
    hide Header.Bytes, Header.WellFormed;
  }
}
