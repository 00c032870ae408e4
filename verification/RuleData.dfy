/** The configured part of a PDR and what each netlink attribute does to it
    (genl_pdr.c). */
module RuleData {
  import opened Types
  import opened Ports
  import opened Sdf
  import Text

  datatype FTeid = FTeid(teid: u32, gtpuAddr: u32)

  datatype Pdi = Pdi(srcIntf: u8, ueAddr: Option<u32>, fTeid: Option<FTeid>, sdf: Option<SdfFilter>)

  datatype PdrConf = PdrConf(
    seid: u64, id: u16, precedence: u32, headerRemoval: Option<u8>, pdi: Option<Pdi>,
    farId: Option<u32>, qerIds: seq<u32>, urrIds: seq<u32>)
  {
    /** Filed by tunnel endpoint: found by arriving GTP-U packets. */
    predicate ByTeid() { pdi.Some? && pdi.value.fTeid.Some? }

    /** Filed by UE address: found by arriving IP packets. */
    predicate ByAddr() { pdi.Some? && pdi.value.fTeid.None? && pdi.value.ueAddr.Some? }

    function Teid(): (r: u32)
      requires ByTeid()
    {
      pdi.value.fTeid.value.teid
    }

    function Addr(): (r: u32)
      requires ByAddr()
    {
      pdi.value.ueAddr.value
    }
  }

  datatype HdrCreation = HdrCreation(description: u16, teid: u32, peer: u32, port: u16, tosTc: u8)

  /** fwd_param of a FAR: the tunnel to forward into and the routing mark. */
  datatype FwdParam = FwdParam(hdr: Option<HdrCreation>, mark: Option<u32>)

  datatype HdrAttr = HdrAttr(
    wellFormed: bool, description: Option<u16>, teid: Option<u32>, peer: Option<u32>, port: Option<u16>)

  datatype PolicyAttr = PolicyAttr(length: nat, mark: u32)

  datatype FwdAttr = FwdAttr(
    wellFormed: bool, hdr: Option<HdrAttr>, sendEndMarker: bool, policy: Option<PolicyAttr>, tosTc: Option<u8>)

  /** The apply-action attribute comes as one byte or two; any other length is ignored. */
  datatype ActionAttr = Bytes(action: u16) | BadLength

  /** Where to send the GTP-U end marker: the tunnel being left. */
  datatype EndMarker = EndMarker(teid: u32, peer: u32, port: u16)

  datatype FwdEdit = FwdEdit(fwd: Option<FwdParam>, marker: Option<EndMarker>, ok: bool)

  /** forwarding_parameter_fill and header_creation_fill. */
  function FillFwd(fwd: Option<FwdParam>, a: FwdAttr): (r: FwdEdit) {
    if !a.wellFormed then FwdEdit(fwd, None, false)
    else
      var p := if fwd.Some? then fwd.value else FwdParam(None, None);
      var h := if a.hdr.Some? then FillHdr(p, a.hdr.value, a.sendEndMarker) else FwdEdit(Some(p), None, true);
      if !h.ok then FwdEdit(Some(p), None, false)
      else if a.policy.Some? && (a.policy.value.length >= 256 || a.policy.value.mark == 0) then
        FwdEdit(h.fwd, h.marker, false)
      else
        var q := h.fwd.value;
        var q1 := if a.policy.Some? then q.(mark := Some(a.policy.value.mark)) else q;
        var q2 := if a.tosTc.Some? && q1.hdr.Some? then q1.(hdr := Some(q1.hdr.value.(tosTc := a.tosTc.value))) else q1;
        FwdEdit(Some(q2), h.marker, true)
  }

  function FillHdr(p: FwdParam, a: HdrAttr, sendEndMarker: bool): (r: FwdEdit)
    ensures r.ok ==> r.fwd.Some?
  {
    if !a.wellFormed || a.description.None? || a.teid.None? || a.peer.None? || a.port.None? then
      FwdEdit(Some(p), None, false)
    else
      var tos := if p.hdr.Some? then p.hdr.value.tosTc else 0;
      var hdr := HdrCreation(a.description.value, a.teid.value, a.peer.value, a.port.value, tos);
      var marker := if p.hdr.Some? && sendEndMarker
                    then Some(EndMarker(p.hdr.value.teid, p.hdr.value.peer, p.hdr.value.port)) else None;
      FwdEdit(Some(p.(hdr := Some(hdr))), marker, true)
  }

  datatype FarAttrs = FarAttrs(action: Option<ActionAttr>, fwd: Option<FwdAttr>)

  /** far_fill leaves this forwarding part behind, whether or not it goes through. */
  function FarFwd(fwd: Option<FwdParam>, a: FarAttrs): (r: FwdEdit) {
    if a.fwd.Some? then FillFwd(fwd, a.fwd.value) else FwdEdit(fwd, None, true)
  }

  function FarAction(action: u16, a: FarAttrs): (r: u16) {
    if a.action.Some? && a.action.value.Bytes? then a.action.value.action else action
  }

  /** An end marker goes to the tunnel being left: exactly when a well-formed new header
      with the send-end-marker flag replaces an existing one and nothing is refused. */
  lemma EndMarkerExactly(fwd: Option<FwdParam>, a: FarAttrs)
    requires FarFwd(fwd, a).ok
    ensures FarFwd(fwd, a).marker ==
            if a.fwd.Some? && a.fwd.value.hdr.Some? && a.fwd.value.sendEndMarker && fwd.Some? && fwd.value.hdr.Some?
            then Some(EndMarker(fwd.value.hdr.value.teid, fwd.value.hdr.value.peer, fwd.value.hdr.value.port))
            else None
  {}

  /** The zeroed object kzalloc hands to pdr_fill. */
  const ZEROED: PdrConf := PdrConf(0, 0, 0, None, None, None, [], [])

  datatype FlowAttr = FlowAttr(
    wellFormed: bool, action: Option<u8>, direction: Option<u8>, protocol: Option<u8>,
    src: Option<u32>, smask: Option<u32>, dest: Option<u32>, dmask: Option<u32>,
    sport: Option<seq<u8>>, dport: Option<seq<u8>>)

  datatype SdfAttr = SdfAttr(wellFormed: bool, flow: Option<FlowAttr>)

  datatype FTeidAttr = FTeidAttr(wellFormed: bool, teid: Option<u32>, gtpuAddr: Option<u32>)

  datatype PdiAttr = PdiAttr(
    wellFormed: bool, ueAddr: Option<u32>, fTeid: Option<FTeidAttr>, srcIntf: Option<u8>, sdf: Option<SdfAttr>)

  datatype PdrAttr =
    | Seid(seid: u64)
    | Id(id: u16)
    | Precedence(precedence: u32)
    | HeaderRemoval(kind: u8)
    | FarId(farId: u32)
    | QerId(qerId: u32)
    | UrrId(urrId: u32)
    | PdiOf(pdi: PdiAttr)
    | Ignored

  /** A configuration being edited in place, and whether the edit went through. */
  datatype Edit<T> = Edit(now: T, ok: bool)

  function Mask(m: Option<u32>): (r: u32) { if m.Some? then m.value else 0xFFFF_FFFF }

  function PortsOr(attr: Option<seq<u8>>, old_: seq<Range>): (r: seq<Range>) {
    if attr.Some? then Ranges(AttrWords(attr.value)) else old_
  }

  /** ParseFlowDesc: the destination port list may be missing, and one that does not parse is
      dropped without a word. */
  function DestinationAttr(text: Option<string>): (r: Option<seq<u8>>) {
    if text.Some? && ParsedPorts(text.value).Some? then Some(Packed(Words(ParsedPorts(text.value).value))) else None
  }

  /** And the source port list: the word after it must be "to", so one that does not parse is
      refused, unless it is that word. The tokens are those after the source address. */
  function SourceAttr(tokens: seq<string>): (r: Option<Option<seq<u8>>>) {
    if tokens == [] then None
    else match ParsedPorts(tokens[0])
      case Some(ports) =>
        if |tokens| >= 2 && tokens[1] == "to" then Some(Some(Packed(Words(ports)))) else None
      case None => if tokens[0] == "to" then Some(None) else None
  }

  /** The kernel's verdict on a destination port, for every text: that of the list if it parses;
      otherwise that of the rule before, which in a new rule accepts every port. */
  lemma DestinationVerdict(text: Option<string>, before: seq<Range>, q: u16)
    ensures var accepts := Matches(PortsOr(DestinationAttr(text), before), q);
            if text.Some? && ParsedPorts(text.value).Some?
            then accepts <==> Covers(ParsedPorts(text.value).value, q)
            else (accepts <==> Matches(before, q)) && (before == [] ==> accepts)
  {
    hide Packed, Words, Ranges, AttrWords, Covers, ParsedPorts;
    if text.Some? && ParsedPorts(text.value).Some? { FlowTextMeaning(text.value, q); }
  }

  /** The same for a source port; and which texts are refused. */
  lemma SourceVerdict(tokens: seq<string>, before: seq<Range>, q: u16)
    ensures SourceAttr(tokens).Some? <==>
              tokens != [] && (tokens[0] == "to" ||
                               (ParsedPorts(tokens[0]).Some? && |tokens| >= 2 && tokens[1] == "to"))
    ensures SourceAttr(tokens).Some? ==>
              (Matches(PortsOr(SourceAttr(tokens).value, before), q) <==>
               if tokens[0] == "to" then Matches(before, q) else Covers(ParsedPorts(tokens[0]).value, q))
  {
    ToIsNoPorts();
    hide Packed, Words, Ranges, AttrWords, Covers, ParsedPorts, Matches;
    if tokens != [] && ParsedPorts(tokens[0]).Some? { FlowTextMeaning(tokens[0], q); }
  }

  lemma ToIsNoPorts()
    ensures ParsedPorts("to").None?
  {
    assert "to"[0] == 't' && ',' !in "to" && '-' !in "to";
    assert Text.Split("to", ',') == ["to"];
    assert !Text.IsDigit("to"[0]);
    assert ParseEntry("to").None?;
    assert ["to"][|["to"]| - 1] == "to";
  }

  function ParseFlow(rule: Option<IpRule>, a: FlowAttr): (r: Edit<Option<IpRule>>) {
    if !a.wellFormed || a.action.None? || a.direction.None? || a.protocol.None? || a.src.None? || a.dest.None? then
      Edit(rule, false)
    else
      var (sp, dp) := if rule.Some? then (rule.value.sport, rule.value.dport) else ([], []);
      Edit(Some(IpRule(a.action.value, a.direction.value, a.protocol.value,
                       a.src.value, Mask(a.smask), a.dest.value, Mask(a.dmask),
                       PortsOr(a.sport, sp), PortsOr(a.dport, dp))), true)
  }

  function ParseSdf(sdf: Option<SdfFilter>, a: SdfAttr): (r: Edit<Option<SdfFilter>>) {
    if !a.wellFormed then Edit(sdf, false)
    else
      var s := if sdf.Some? then sdf.value else SdfFilter(None);
      if a.flow.None? then Edit(Some(s), true)
      else
        var e := ParseFlow(s.rule, a.flow.value);
        Edit(Some(SdfFilter(e.now)), e.ok)
  }

  function ParseFTeid(f: Option<FTeid>, a: FTeidAttr): (r: Edit<Option<FTeid>>) {
    if !a.wellFormed || a.teid.None? || a.gtpuAddr.None? then Edit(f, false)
    else Edit(Some(FTeid(a.teid.value, a.gtpuAddr.value)), true)
  }

  /** parse_pdi: the address, the tunnel endpoint, the interface and the filter, in that
      order, stopping at the first part that is refused. */
  function ParsePdi(pdi: Option<Pdi>, a: PdiAttr): (r: Edit<Option<Pdi>>) {
    if !a.wellFormed then Edit(pdi, false)
    else
      var p0 := if pdi.Some? then pdi.value else Pdi(0, None, None, None);
      var p1 := if a.ueAddr.Some? then p0.(ueAddr := a.ueAddr) else p0;
      var f := if a.fTeid.Some? then ParseFTeid(p1.fTeid, a.fTeid.value) else Edit(p1.fTeid, true);
      var p2 := p1.(fTeid := f.now);
      if !f.ok then Edit(Some(p2), false)
      else
        var p3 := if a.srcIntf.Some? then p2.(srcIntf := a.srcIntf.value) else p2;
        var s := if a.sdf.Some? then ParseSdf(p3.sdf, a.sdf.value) else Edit(p3.sdf, true);
        Edit(Some(p3.(sdf := s.now)), s.ok)
  }

  /** set_pdr_qer_ids and set_pdr_urr_ids: append unless already there. */
  function AddId(ids: seq<u32>, id: u32): (r: seq<u32>) { if id in ids then ids else ids + [id] }

  function ApplyAttr(c: PdrConf, a: PdrAttr): (r: Edit<PdrConf>) {
    match a
    case Seid(v) => Edit(c.(seid := v), true)
    case Id(v) => Edit(c.(id := v), true)
    case Precedence(v) => Edit(c.(precedence := v), true)
    case HeaderRemoval(v) => Edit(c.(headerRemoval := Some(v)), true)
    case FarId(v) => Edit(c.(farId := Some(v)), true)
    case QerId(v) => Edit(c.(qerIds := AddId(c.qerIds, v)), true)
    case UrrId(v) => Edit(c.(urrIds := AddId(c.urrIds, v)), true)
    case PdiOf(v) => var e := ParsePdi(c.pdi, v); Edit(c.(pdi := e.now), e.ok)
    case Ignored => Edit(c, true)
  }

  /** NLA_ALIGN: attributes start at multiples of four bytes. */
  function Aligned(length: nat): (r: nat) { (length + 3) / 4 * 4 }

  /** The four bytes of the generic netlink header, and the command that adds a PDR. */
  const GENL_HEADER: nat := 4
  const CMD_ADD_PDR: u8 := 1

  /** pdr_fill points at the generic netlink header, reads its command and version as the length
      of an attribute (low byte first), and steps over it. That leads exactly to the first attribute when the
      version is zero, which it is in this family, and the command is one of the first four. */
  lemma FirstStepIff(command: u8, version: u8)
    ensures Aligned(command as int + 256 * version as int) == GENL_HEADER <==> version == 0 && 1 <= command <= 4
    ensures Aligned(CMD_ADD_PDR) == GENL_HEADER
  {}

  /** The attribute loop of pdr_fill, which starts by clearing the session id. */
  function Fill(c: PdrConf, attrs: seq<PdrAttr>): (r: Edit<PdrConf>) {
    if attrs == [] then Edit(c.(seid := 0), true)
    else
      var before := Fill(c, attrs[..|attrs| - 1]);
      if before.ok then ApplyAttr(before.now, attrs[|attrs| - 1]) else before
  }

  /** info->attrs keeps the last attribute of each kind. */
  function SeidOf(attrs: seq<PdrAttr>): (r: u64) {
    if attrs == [] then 0
    else if attrs[|attrs| - 1].Seid? then attrs[|attrs| - 1].seid
    else SeidOf(attrs[..|attrs| - 1])
  }

  function IdOf(attrs: seq<PdrAttr>): (r: Option<u16>) {
    if attrs == [] then None
    else if attrs[|attrs| - 1].Id? then Some(attrs[|attrs| - 1].id)
    else IdOf(attrs[..|attrs| - 1])
  }

  predicate HasPrecedence(attrs: seq<PdrAttr>) { exists i | 0 <= i < |attrs| :: attrs[i].Precedence? }

  predicate HasFarId(attrs: seq<PdrAttr>) { exists i | 0 <= i < |attrs| :: attrs[i].FarId? }

  /** A fill that goes through leaves the PDR under the very key it was looked up with,
      keeps an existing FAR reference or sets one, and only ever adds QERs and URRs. */
  lemma {:induction false} FillKeepsKey(c: PdrConf, attrs: seq<PdrAttr>)
    ensures var r := Fill(c, attrs);
            && (r.ok ==> r.now.seid == SeidOf(attrs))
            && (r.ok ==> r.now.id == if IdOf(attrs).Some? then IdOf(attrs).value else c.id)
            && (c.farId.Some? ==> r.now.farId.Some?)
            && (r.ok && HasFarId(attrs) ==> r.now.farId.Some?)
            && c.qerIds <= r.now.qerIds
            && c.urrIds <= r.now.urrIds
  {
    if attrs == [] {
    } else {
      var n := |attrs| - 1;
      FillKeepsKey(c, attrs[..n]);
      if HasFarId(attrs) && !attrs[n].FarId? {
        var i :| 0 <= i < |attrs| && attrs[i].FarId?;
        assert attrs[..n][i].FarId?;
      }
    }
  }

  lemma {:induction false} FillStuck(c: PdrConf, attrs: seq<PdrAttr>, k: nat)
    requires k <= |attrs| && !Fill(c, attrs[..k]).ok
    ensures Fill(c, attrs) == Fill(c, attrs[..k])
    decreases |attrs| - k
  {
    if k < |attrs| {
      assert attrs[..k + 1][..k] == attrs[..k];
      FillStuck(c, attrs, k + 1);
    } else {
      assert attrs[..k] == attrs;
    }
  }
}
