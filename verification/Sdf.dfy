/** Packets as the detection code sees them, and the SDF filter of a PDR (pdr.c). */
module Sdf {
  import opened Types
  import opened Ports
  import opened Bits

  const SDF_FILTER_OUT: u8 := 2
  const IP_PROTO_RESERVED: u8 := 0xff

  datatype IpRule = IpRule(
    action: u8, direction: u8, proto: u8,
    src: u32, smask: u32, dest: u32, dmask: u32,
    sport: seq<Range>, dport: seq<Range>)

  /** Of a filter's parts only the flow description takes part in matching. */
  datatype SdfFilter = SdfFilter(rule: Option<IpRule>)

  /** The inner IPv4 header, when the packet is long enough to hold one, and the two
      port words behind it, when it is long enough to hold those. */
  datatype IpHeader = IpHeader(saddr: u32, daddr: u32, protocol: u8, ports: Option<(u16, u16)>)

  datatype Packet = Packet(isIpv4: bool, ip: Option<IpHeader>)

  predicate Ipv4Match(target: u32, ifa: u32, mask: u32) { AndBits(XorBits(target, ifa, 32), mask, 32) == 0 }

  /** An address matches exactly when it agrees with the rule's in every bit the mask sets. */
  lemma Ipv4MatchIff(target: u32, ifa: u32, mask: u32)
    ensures Ipv4Match(target, ifa, mask) <==>
            forall i | 0 <= i < 32 && Bit(mask, i) == 1 :: Bit(target, i) == Bit(ifa, i)
  {
    var x := XorBits(target, ifa, 32);
    var y := AndBits(x, mask, 32);
    forall i | 0 <= i < 32
      ensures Bit(y, i) == if Bit(target, i) != Bit(ifa, i) && Bit(mask, i) == 1 then 1 else 0
    {
      BitOfXor(target, ifa, 32, i);
      BitOfAnd(x, mask, 32, i);
    }
    if y == 0 {
      forall i | 0 <= i < 32 ensures Bit(y, i) == 0 { ZeroBits(i); }
    } else {
      AndBelow(x, mask, 32);
      var i := SetBit(y, 32);
      assert Bit(mask, i) == 1 && Bit(target, i) != Bit(ifa, i);
    }
  }

  /** The network part of an address under a prefix of n bits. */
  function Network(address: u32, n: nat): (r: int)
    requires n <= 32
  {
    address / Power2(32 - n)
  }

  /** The mask of a prefix of n bits. */
  function PrefixMask(n: nat): (m: u32)
    requires n <= 32
  {
    PowerMono(32 - n, 32);
    Power32();
    Power2(32) - Power2(32 - n)
  }

  lemma Power32()
    ensures Power2(32) == 0x1_0000_0000
  {
    assert Power2(8) == 256;
    assert Power2(16) == 0x1_0000;
    assert Power2(24) == 0x100_0000;
  }

  /** Under a prefix mask a rule's address stands for its subnet. */
  lemma SubnetIff(target: u32, ifa: u32, n: nat)
    requires n <= 32
    ensures Ipv4Match(target, ifa, PrefixMask(n)) <==> Network(target, n) == Network(ifa, n)
  {
    Power32();
    PrefixIff(target, ifa, 32, 32 - n);
  }

  predicate FilterAccepts(sdf: SdfFilter, pkt: Packet, direction: u8) {
    pkt.ip.Some? &&
    match sdf.rule
    case None => true
    case Some(rule) =>
      var iph := pkt.ip.value;
      && rule.direction == direction
      && (rule.proto == IP_PROTO_RESERVED || rule.proto == iph.protocol)
      && Ipv4Match(iph.saddr, rule.src, rule.smask)
      && Ipv4Match(iph.daddr, rule.dest, rule.dmask)
      && (rule.sport == rule.dport == [] ||
          (iph.ports.Some? && Matches(rule.sport, iph.ports.value.0) && Matches(rule.dport, iph.ports.value.1)))
  }

  method SdfFilterMatch(sdf: Option<SdfFilter>, pkt: Packet, direction: u8) returns (r: bool)
    ensures r == (sdf.Some? ==> FilterAccepts(sdf.value, pkt, direction))
  {
    if sdf.None? { return true; }
    if pkt.ip.None? { return false; }
    var iph := pkt.ip.value;
    if sdf.value.rule.Some? {
      var rule := sdf.value.rule.value;
      if rule.direction != direction { return false; }
      if rule.proto != IP_PROTO_RESERVED && rule.proto != iph.protocol { return false; }
      if !Ipv4Match(iph.saddr, rule.src, rule.smask) { return false; }
      if !Ipv4Match(iph.daddr, rule.dest, rule.dmask) { return false; }
      if |rule.sport| + |rule.dport| > 0 {
        if iph.ports.None? { return false; }
        var ok := PortsMatch(rule.sport, iph.ports.value.0);
        if !ok { return false; }
        ok := PortsMatch(rule.dport, iph.ports.value.1);
        if !ok { return false; }
      }
    }
    return true;
  }

  predicate InSome(ranges: seq<Range>, port: u16) {
    exists i | 0 <= i < |ranges| :: ranges[i].start <= port <= ranges[i].end
  }

  /** A rule between two subnets: it accepts exactly the packets that travel in its direction, carry
      its protocol (255 stands for any), go from the one to the other and, if it names ports, use
      named ones. Direction 2 is the one detection asks for. */
  lemma SubnetRuleAccepts(rule: IpRule, pkt: Packet, n: nat, k: nat)
    requires n <= 32 && k <= 32 && rule.smask == PrefixMask(n) && rule.dmask == PrefixMask(k)
    ensures FilterAccepts(SdfFilter(Some(rule)), pkt, SDF_FILTER_OUT) <==>
              && pkt.ip.Some?
              && var iph := pkt.ip.value;
              && rule.direction == 2
              && (rule.proto == 255 || rule.proto == iph.protocol)
              && Network(iph.saddr, n) == Network(rule.src, n)
              && Network(iph.daddr, k) == Network(rule.dest, k)
              && (rule.sport == [] || (iph.ports.Some? && InSome(rule.sport, iph.ports.value.0)))
              && (rule.dport == [] || (iph.ports.Some? && InSome(rule.dport, iph.ports.value.1)))
  {
    hide Ipv4Match, PrefixMask, Network;
    if pkt.ip.Some? {
      SubnetIff(pkt.ip.value.saddr, rule.src, n);
      SubnetIff(pkt.ip.value.daddr, rule.dest, k);
    }
  }
}
