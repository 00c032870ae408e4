/** What an installed rule holds after any run of requests, told from the requests alone: of every
    field, what the last accepted request that gave it said. */
module LastWriter {
  import opened Types
  import opened Ports
  import opened Sdf
  import opened RuleData
  import opened Store
  import opened Rules

  /** The last of a list that has the part asked for. */
  function LastGiven<A, T>(h: seq<A>, part: A -> Option<T>): (r: Option<T>) {
    if h == [] then None
    else if part(h[|h| - 1]).Some? then part(h[|h| - 1])
    else LastGiven(h[..|h| - 1], part)
  }

  lemma {:induction false} LastGivenIs<A, T>(h: seq<A>, part: A -> Option<T>)
    ensures LastGiven(h, part) == None ==> forall i | 0 <= i < |h| :: part(h[i]) == None
    ensures LastGiven(h, part) != None ==>
              exists i | 0 <= i < |h| ::
                part(h[i]) == LastGiven(h, part) && forall j | i < j < |h| :: part(h[j]) == None
  {
    if h == [] {
    } else {
      var n := |h| - 1;
      if part(h[n]).None? {
        LastGivenIs(h[..n], part);
        if LastGiven(h, part) != None {
          var i :| 0 <= i < n && part(h[..n][i]) == LastGiven(h, part)
                   && forall j | i < j < n :: part(h[..n][j]) == None;
          forall j | i < j < |h| ensures part(h[j]) == None { if j < n { assert part(h[..n][j]) == None; } }
          assert part(h[i]) == LastGiven(h, part);
        } else {
          forall i | 0 <= i < |h| ensures part(h[i]) == None { if i < n { assert part(h[..n][i]) == None; } }
        }
      }
    }
  }

  lemma OneMore<A, T>(h: seq<A>, a: A, part: A -> Option<T>)
    ensures LastGiven(h + [a], part) == if part(a).Some? then part(a) else LastGiven(h, part)
  {
    assert (h + [a])[..|h|] == h;
  }

  function Or<T>(x: Option<T>, otherwise: T): (r: T) { if x.Some? then x.value else otherwise }

  // ---------- FARs ----------

  function ActionOf(a: FarAttrs): (r: Option<u16>) {
    if a.action.Some? && a.action.value.Bytes? then Some(a.action.value.action) else None
  }

  function HeaderOf(a: FarAttrs): (r: Option<HdrAttr>) { if a.fwd.Some? then a.fwd.value.hdr else None }

  function PolicyOf(a: FarAttrs): (r: Option<PolicyAttr>) { if a.fwd.Some? then a.fwd.value.policy else None }

  function TosOf(a: FarAttrs): (r: Option<u8>) { if a.fwd.Some? then a.fwd.value.tosTc else None }

  /** The requests from the first on that brought a header. */
  function SinceHeader(h: seq<FarAttrs>): (r: seq<FarAttrs>) {
    if h == [] then []
    else
      var r := SinceHeader(h[..|h| - 1]);
      if r != [] || HeaderOf(h[|h| - 1]).Some? then r + [h[|h| - 1]] else []
  }

  /** f is what the accepted requests h have made of a new FAR. */
  ghost predicate FarFollows(f: FarConf, h: seq<FarAttrs>) {
    && f.action == Or(LastGiven(h, ActionOf), 0)
    && (f.fwd.Some? <==> exists i | 0 <= i < |h| :: h[i].fwd.Some?)
    && (f.fwd.Some? ==> FwdFollows(f.fwd.value, h))
  }

  ghost predicate FwdFollows(p: FwdParam, h: seq<FarAttrs>) {
    && var header := LastGiven(h, HeaderOf);
    && (p.hdr.Some? <==> header.Some?)
    && (p.hdr.Some? ==>
          && header.value.description == Some(p.hdr.value.description)
          && header.value.teid == Some(p.hdr.value.teid)
          && header.value.peer == Some(p.hdr.value.peer)
          && header.value.port == Some(p.hdr.value.port)
          && p.hdr.value.tosTc == Or(LastGiven(SinceHeader(h), TosOf), 0))
    && var policy := LastGiven(h, PolicyOf);
    && p.mark == if policy.Some? then Some(policy.value.mark) else None
  }

  lemma {:induction false} SinceHeaderIff(h: seq<FarAttrs>)
    ensures SinceHeader(h) == [] <==> LastGiven(h, HeaderOf).None?
  {
    if h == [] {
    } else {
      SinceHeaderIff(h[..|h| - 1]);
    }
  }

  lemma NothingForwarded(h: seq<FarAttrs>)
    requires forall i | 0 <= i < |h| :: h[i].fwd.None?
    ensures FwdFollows(FwdParam(None, None), h)
  {
    LastGivenIs(h, HeaderOf);
    LastGivenIs(h, PolicyOf);
  }

  lemma SinceHeaderMore(h: seq<FarAttrs>, a: FarAttrs)
    ensures SinceHeader(h + [a]) ==
              if SinceHeader(h) != [] || HeaderOf(a).Some? then SinceHeader(h) + [a] else []
  {
    assert (h + [a])[..|h|] == h;
  }

  lemma FwdStep(p: FwdParam, h: seq<FarAttrs>, a: FarAttrs)
    requires FwdFollows(p, h) && (a.fwd.Some? ==> FillFwd(Some(p), a.fwd.value).ok)
    ensures FwdFollows(if a.fwd.Some? then FillFwd(Some(p), a.fwd.value).fwd.value else p, h + [a])
  {
    hide LastGiven, SinceHeader;
    OneMore(h, a, HeaderOf);
    OneMore(h, a, PolicyOf);
    SinceHeaderMore(h, a);
    OneMore(SinceHeader(h), a, TosOf);
    SinceHeaderIff(h);
    NoneGiven(TosOf);
  }

  lemma NoneGiven<A, T>(part: A -> Option<T>)
    ensures LastGiven([], part) == None
  {}

  lemma FarStep(f: FarConf, h: seq<FarAttrs>, a: FarAttrs)
    requires FarFollows(f, h) && FarFwd(f.fwd, a).ok
    ensures FarFollows(FarConf(FarAction(f.action, a), FarFwd(f.fwd, a).fwd), h + [a])
  {
    OneMore(h, a, ActionOf);
    assert forall i | 0 <= i < |h| :: (h + [a])[i] == h[i];
    assert (h + [a])[|h|] == a;
    if f.fwd.None? { NothingForwarded(h); }
    FwdStep(if f.fwd.Some? then f.fwd.value else FwdParam(None, None), h, a);
    hide LastGiven, FwdFollows;
  }

  // ---------- PDRs ----------

  function PrecedenceOf(a: PdrAttr): (r: Option<u32>) { if a.Precedence? then Some(a.precedence) else None }

  function HeaderRemovalOf(a: PdrAttr): (r: Option<u8>) { if a.HeaderRemoval? then Some(a.kind) else None }

  function FarIdOf(a: PdrAttr): (r: Option<u32>) { if a.FarId? then Some(a.farId) else None }

  function QerIdOf(a: PdrAttr): (r: Option<u32>) { if a.QerId? then Some(a.qerId) else None }

  function UrrIdOf(a: PdrAttr): (r: Option<u32>) { if a.UrrId? then Some(a.urrId) else None }

  function PdiPart(a: PdrAttr): (r: Option<PdiAttr>) { if a.PdiOf? then Some(a.pdi) else None }

  function SrcIntfOf(a: PdrAttr): (r: Option<u8>) { if a.PdiOf? then a.pdi.srcIntf else None }

  function UeAddrOf(a: PdrAttr): (r: Option<u32>) { if a.PdiOf? then a.pdi.ueAddr else None }

  function FTeidOf(a: PdrAttr): (r: Option<FTeidAttr>) { if a.PdiOf? then a.pdi.fTeid else None }

  function SdfOf(a: PdrAttr): (r: Option<SdfAttr>) { if a.PdiOf? then a.pdi.sdf else None }

  function FlowOf(a: PdrAttr): (r: Option<FlowAttr>) { if SdfOf(a).Some? then SdfOf(a).value.flow else None }

  function SportOf(a: PdrAttr): (r: Option<seq<u8>>) { if FlowOf(a).Some? then FlowOf(a).value.sport else None }

  function DportOf(a: PdrAttr): (r: Option<seq<u8>>) { if FlowOf(a).Some? then FlowOf(a).value.dport else None }

  predicate Names(h: seq<PdrAttr>, part: PdrAttr -> Option<u32>, id: u32) {
    exists k | 0 <= k < |h| :: part(h[k]) == Some(id)
  }

  /** The ids named, each once, in the order in which they were named first. */
  ghost predicate IdsFollow(ids: seq<u32>, h: seq<PdrAttr>, part: PdrAttr -> Option<u32>) {
    && (forall id: u32 :: id in ids <==> Names(h, part, id))
    && forall i, j | 0 <= i < j < |ids| :: NamedFirst(h, part, ids[i], ids[j])
  }

  /** At some point x had been named and y had not. */
  predicate NamedFirst(h: seq<PdrAttr>, part: PdrAttr -> Option<u32>, x: u32, y: u32) {
    exists k | 0 <= k <= |h| :: Names(h[..k], part, x) && !Names(h[..k], part, y)
  }

  predicate RuleFollows(rule: IpRule, h: seq<PdrAttr>)
    requires LastGiven(h, FlowOf).Some?
  {
    var flow := LastGiven(h, FlowOf).value;
    && flow.action == Some(rule.action) && flow.direction == Some(rule.direction)
    && flow.protocol == Some(rule.proto) && flow.src == Some(rule.src) && flow.dest == Some(rule.dest)
    && rule.smask == Or(flow.smask, 0xFFFF_FFFF) && rule.dmask == Or(flow.dmask, 0xFFFF_FFFF)
    && rule.sport == Ranges(AttrWords(Or(LastGiven(h, SportOf), [])))
    && rule.dport == Ranges(AttrWords(Or(LastGiven(h, DportOf), [])))
  }

  predicate PdiFollows(p: Pdi, h: seq<PdrAttr>) {
    && p.srcIntf == Or(LastGiven(h, SrcIntfOf), 0)
    && p.ueAddr == LastGiven(h, UeAddrOf)
    && var tunnel := LastGiven(h, FTeidOf);
    && (p.fTeid.Some? <==> tunnel.Some?)
    && (p.fTeid.Some? ==>
          tunnel.value.teid == Some(p.fTeid.value.teid) && tunnel.value.gtpuAddr == Some(p.fTeid.value.gtpuAddr))
    && (p.sdf.Some? <==> LastGiven(h, SdfOf).Some?)
    && (p.sdf.Some? ==> (p.sdf.value.rule.Some? <==> LastGiven(h, FlowOf).Some?))
    && (p.sdf.Some? && p.sdf.value.rule.Some? ==> RuleFollows(p.sdf.value.rule.value, h))
  }

  /** c is what the attributes h of the accepted requests have made of a new PDR. */
  ghost predicate PdrFollows(c: PdrConf, h: seq<PdrAttr>) {
    && c.precedence == Or(LastGiven(h, PrecedenceOf), 0)
    && c.headerRemoval == LastGiven(h, HeaderRemovalOf)
    && c.farId == LastGiven(h, FarIdOf)
    && IdsFollow(c.qerIds, h, QerIdOf)
    && IdsFollow(c.urrIds, h, UrrIdOf)
    && (c.pdi.Some? <==> LastGiven(h, PdiPart).Some?)
    && (c.pdi.Some? ==> PdiFollows(c.pdi.value, h))
  }

  lemma NoWholeNoPart<A, S, T>(h: seq<A>, whole: A -> Option<S>, part: A -> Option<T>)
    requires forall i | 0 <= i < |h| && whole(h[i]) == None :: part(h[i]) == None
    requires LastGiven(h, whole) == None
    ensures LastGiven(h, part) == None
  {
    LastGivenIs(h, whole);
    LastGivenIs(h, part);
  }

  lemma NamesMore(h: seq<PdrAttr>, a: PdrAttr, part: PdrAttr -> Option<u32>, id: u32)
    ensures Names(h + [a], part, id) <==> Names(h, part, id) || part(a) == Some(id)
  {
    var g := h + [a];
    if Names(h, part, id) {
      var k :| 0 <= k < |h| && part(h[k]) == Some(id);
      assert part(g[k]) == Some(id);
    }
    if part(a) == Some(id) { assert part(g[|h|]) == Some(id); }
  }

  lemma NamedFirstMore(h: seq<PdrAttr>, a: PdrAttr, part: PdrAttr -> Option<u32>, x: u32, y: u32)
    requires NamedFirst(h, part, x, y) || (Names(h, part, x) && !Names(h, part, y))
    ensures NamedFirst(h + [a], part, x, y)
  {
    var k := |h|;
    if NamedFirst(h, part, x, y) { k :| 0 <= k <= |h| && Names(h[..k], part, x) && !Names(h[..k], part, y); }
    assert (h + [a])[..k] == h[..k] && h[..|h|] == h;
    hide Names;
  }

  lemma IdStep(ids: seq<u32>, h: seq<PdrAttr>, a: PdrAttr, part: PdrAttr -> Option<u32>)
    requires IdsFollow(ids, h, part)
    ensures IdsFollow(if part(a).Some? then AddId(ids, part(a).value) else ids, h + [a], part)
  {
    hide Names, NamedFirst;
    var g := h + [a];
    var more := if part(a).Some? then AddId(ids, part(a).value) else ids;
    forall id: u32 ensures id in more <==> Names(g, part, id) {
      NamesMore(h, a, part, id);
    }
    forall i, j | 0 <= i < j < |more| ensures NamedFirst(g, part, more[i], more[j]) {
      assert j < |ids| || (more[i] in ids && more[j] !in ids);
      NamedFirstMore(h, a, part, more[i], more[j]);
    }
  }

  lemma RuleStep(rule: Option<IpRule>, h: seq<PdrAttr>, a: PdrAttr)
    requires FlowOf(a).Some? && ParseFlow(rule, FlowOf(a).value).ok
    requires rule.Some? <==> LastGiven(h, FlowOf).Some?
    requires rule.Some? ==> RuleFollows(rule.value, h)
    ensures var e := ParseFlow(rule, FlowOf(a).value);
            && e.now.Some?
            && LastGiven(h + [a], FlowOf).Some?
            && RuleFollows(e.now.value, h + [a])
  {
    hide Ranges, AttrWords;
    OneMore(h, a, FlowOf);
    OneMore(h, a, SportOf);
    OneMore(h, a, DportOf);
    if rule.None? {
      NoWholeNoPart(h, FlowOf, SportOf);
      NoWholeNoPart(h, FlowOf, DportOf);
    }
    NoWords();
    hide LastGiven;
  }

  lemma NoWords()
    ensures Ranges(AttrWords([])) == []
  {}

  /** Everything in a detection part that names nothing of the kind before. */
  lemma NothingDetected(h: seq<PdrAttr>)
    requires LastGiven(h, PdiPart) == None
    ensures PdiFollows(Pdi(0, None, None, None), h)
  {
    NoWholeNoPart(h, PdiPart, SrcIntfOf);
    NoWholeNoPart(h, PdiPart, UeAddrOf);
    NoWholeNoPart(h, PdiPart, FTeidOf);
    NoWholeNoPart(h, PdiPart, SdfOf);
  }

  lemma SdfStep(sdf: Option<SdfFilter>, h: seq<PdrAttr>, a: PdrAttr)
    requires SdfOf(a).Some? && ParseSdf(sdf, SdfOf(a).value).ok
    requires sdf.Some? <==> LastGiven(h, SdfOf).Some?
    requires sdf.Some? ==> (sdf.value.rule.Some? <==> LastGiven(h, FlowOf).Some?)
    requires sdf.Some? && sdf.value.rule.Some? ==> RuleFollows(sdf.value.rule.value, h)
    ensures var e := ParseSdf(sdf, SdfOf(a).value);
            && e.now.Some?
            && (e.now.value.rule.Some? <==> LastGiven(h + [a], FlowOf).Some?)
            && (e.now.value.rule.Some? ==> RuleFollows(e.now.value.rule.value, h + [a]))
  {
    var rule := if sdf.Some? then sdf.value.rule else None;
    if sdf.None? { NoWholeNoPart(h, SdfOf, FlowOf); }
    if FlowOf(a).Some? {
      RuleStep(rule, h, a);
    } else if rule.Some? {
      SameRule(rule.value, h, a);
    } else {
      OneMore(h, a, FlowOf);
    }
    hide RuleFollows, LastGiven, ParseFlow;
  }

  /** An attribute without a flow description leaves the rule as it is. */
  lemma SameRule(rule: IpRule, h: seq<PdrAttr>, a: PdrAttr)
    requires FlowOf(a).None? && LastGiven(h, FlowOf).Some? && RuleFollows(rule, h)
    ensures LastGiven(h + [a], FlowOf) == LastGiven(h, FlowOf) && RuleFollows(rule, h + [a])
  {
    hide LastGiven, Ranges, AttrWords;
    OneMore(h, a, FlowOf);
    OneMore(h, a, SportOf);
    OneMore(h, a, DportOf);
  }

  lemma PdiStep(p: Pdi, h: seq<PdrAttr>, a: PdrAttr)
    requires PdiFollows(p, h) && (a.PdiOf? ==> ParsePdi(Some(p), a.pdi).ok)
    ensures var e := if a.PdiOf? then ParsePdi(Some(p), a.pdi).now else Some(p);
            e.Some? && PdiFollows(e.value, h + [a])
  {
    hide LastGiven, RuleFollows, ParseSdf;
    OneMore(h, a, SrcIntfOf);
    OneMore(h, a, UeAddrOf);
    OneMore(h, a, FTeidOf);
    OneMore(h, a, SdfOf);
    if SdfOf(a).Some? {
      SdfStep(p.sdf, h, a);
    } else {
      OneMore(h, a, FlowOf);
      if p.sdf.Some? && p.sdf.value.rule.Some? { SameRule(p.sdf.value.rule.value, h, a); }
    }
  }

  lemma AttrStep(c: PdrConf, h: seq<PdrAttr>, a: PdrAttr)
    requires PdrFollows(c, h) && ApplyAttr(c, a).ok
    ensures PdrFollows(ApplyAttr(c, a).now, h + [a])
  {
    hide LastGiven, PdiFollows, IdsFollow, ParsePdi;
    OneMore(h, a, PrecedenceOf);
    OneMore(h, a, HeaderRemovalOf);
    OneMore(h, a, FarIdOf);
    OneMore(h, a, PdiPart);
    IdStep(c.qerIds, h, a, QerIdOf);
    IdStep(c.urrIds, h, a, UrrIdOf);
    if c.pdi.None? {
      NothingDetected(h);
      if a.PdiOf? { FromNothing(a.pdi); }
    }
    if c.pdi.Some? || a.PdiOf? { PdiStep(if c.pdi.Some? then c.pdi.value else Pdi(0, None, None, None), h, a); }
  }

  lemma FromNothing(a: PdiAttr)
    ensures ParsePdi(None, a).ok ==> ParsePdi(None, a) == ParsePdi(Some(Pdi(0, None, None, None)), a)
  {}

  lemma {:induction false} FillStep(c: PdrConf, h: seq<PdrAttr>, attrs: seq<PdrAttr>)
    requires PdrFollows(c, h) && Fill(c, attrs).ok
    ensures PdrFollows(Fill(c, attrs).now, h + attrs)
  {
    hide PdrFollows, ApplyAttr;
    if attrs == [] {
      SessionIsNoField(c, h);
      assert h + attrs == h;
    } else {
      var n := |attrs| - 1;
      FillStep(c, h, attrs[..n]);
      AttrStep(Fill(c, attrs[..n]).now, h + attrs[..n], attrs[n]);
      assert h + attrs == h + attrs[..n] + [attrs[n]];
    }
  }

  lemma SessionIsNoField(c: PdrConf, h: seq<PdrAttr>)
    requires PdrFollows(c, h)
    ensures PdrFollows(c.(seid := 0), h)
  {}

  // ---------- which requests are accepted ----------

  /** A FAR request is taken unless part of it is malformed or incomplete, or its routing mark is
      too long or zero. */
  predicate FarTaken(a: FarAttrs) {
    a.fwd.Some? ==>
      && a.fwd.value.wellFormed
      && (a.fwd.value.hdr.Some? ==>
            var h := a.fwd.value.hdr.value;
            h.wellFormed && h.description.Some? && h.teid.Some? && h.peer.Some? && h.port.Some?)
      && (a.fwd.value.policy.Some? ==> a.fwd.value.policy.value.length <= 255 && a.fwd.value.policy.value.mark > 0)
  }

  lemma FarTakenIff(fwd: Option<FwdParam>, a: FarAttrs)
    ensures FarFwd(fwd, a).ok <==> FarTaken(a)
  {}

  predicate PdiTaken(p: PdiAttr) {
    && p.wellFormed
    && (p.fTeid.Some? ==> p.fTeid.value.wellFormed && p.fTeid.value.teid.Some? && p.fTeid.value.gtpuAddr.Some?)
    && (p.sdf.Some? ==> p.sdf.value.wellFormed)
    && (p.sdf.Some? && p.sdf.value.flow.Some? ==>
          var f := p.sdf.value.flow.value;
          f.wellFormed && f.action.Some? && f.direction.Some? && f.protocol.Some? && f.src.Some? && f.dest.Some?)
  }

  /** Of a PDR request only the detection part can be refused. */
  predicate PdrTaken(attrs: seq<PdrAttr>) {
    forall i | 0 <= i < |attrs| && attrs[i].PdiOf? :: PdiTaken(attrs[i].pdi)
  }

  lemma AttrTakenIff(c: PdrConf, a: PdrAttr)
    ensures ApplyAttr(c, a).ok <==> (a.PdiOf? ==> PdiTaken(a.pdi))
  {}

  lemma {:induction false} PdrTakenIff(c: PdrConf, attrs: seq<PdrAttr>)
    ensures Fill(c, attrs).ok <==> PdrTaken(attrs)
  {
    hide ApplyAttr, PdiTaken;
    if attrs == [] {
    } else {
      var n := |attrs| - 1;
      PdrTakenIff(c, attrs[..n]);
      AttrTakenIff(Fill(c, attrs[..n]).now, attrs[n]);
      assert forall i | 0 <= i < n :: attrs[..n][i] == attrs[i];
    }
  }

  function IdPart(a: PdrAttr): (r: Option<u16>) { if a.Id? then Some(a.id) else None }

  function SeidPart(a: PdrAttr): (r: Option<u64>) { if a.Seid? then Some(a.seid) else None }

  /** The key of a request: the last session and the last identifier it gives. */
  lemma {:induction false} KeyIsLast(attrs: seq<PdrAttr>)
    ensures IdOf(attrs) == LastGiven(attrs, IdPart) && SeidOf(attrs) == Or(LastGiven(attrs, SeidPart), 0)
    ensures HasPrecedence(attrs) <==> LastGiven(attrs, PrecedenceOf).Some?
    ensures HasFarId(attrs) <==> LastGiven(attrs, FarIdOf).Some?
  {
    LastGivenIs(attrs, PrecedenceOf);
    LastGivenIs(attrs, FarIdOf);
    if attrs == [] {
    } else {
      KeyIsLast(attrs[..|attrs| - 1]);
    }
  }

  // ---------- runs ----------

  /** A request for an installed rule must be a replacement, and one for a new rule must not be; a
      replacement that is not taken takes the rule away. */
  function AfterFar(h: seq<FarAttrs>, nl: Flags, a: FarAttrs): (r: seq<FarAttrs>) {
    if h != [] then (if nl.excl || !nl.replace then h else if FarTaken(a) then h + [a] else [])
    else if nl.replace || nl.append || a.action.None? || !FarTaken(a) then [] else [a]
  }

  function AfterPdr(h: seq<PdrAttr>, nl: Flags, attrs: seq<PdrAttr>, taken: bool): (r: seq<PdrAttr>) {
    if h != [] then (if nl.excl || !nl.replace then h else if taken then h + attrs else [])
    else if nl.replace || nl.append || LastGiven(attrs, PrecedenceOf).None? || !taken then [] else attrs
  }

  /** The accepted requests for a FAR since it was created; none if it is not installed. */
  function FarHistory(cs: seq<Command>, key: (u64, u32)): (h: seq<FarAttrs>) {
    if cs == [] then []
    else
      var h := FarHistory(cs[..|cs| - 1], key);
      match cs[|cs| - 1]
      case AddFar(nl, seid, id, a) =>
        if (seid, id) == key then AfterFar(h, nl, a) else h
      case DelFar(seid, id) => if (seid, id) == key then [] else h
      case _ => h
  }

  /** The attributes accepted for a PDR since it was created; none if it is not installed. A request
      needs its FAR to be installed at that time. */
  function PdrHistory(cs: seq<Command>, key: (u64, u16)): (h: seq<PdrAttr>) {
    if cs == [] then []
    else
      var before := cs[..|cs| - 1];
      var h := PdrHistory(before, key);
      match cs[|cs| - 1]
      case AddPdr(nl, attrs, sockOk) =>
        if LastGiven(attrs, IdPart) != Some(key.1) || Or(LastGiven(attrs, SeidPart), 0) != key.0 then h
        else
          var farId := LastGiven(h + attrs, FarIdOf);
          var taken := PdrTaken(attrs) && sockOk && farId.Some? && FarHistory(before, (key.0, farId.value)) != [];
          AfterPdr(h, nl, attrs, taken)
      case DelPdr(seid, id) => if (seid, id) == key then [] else h
      case _ => h
  }

  /** The FAR of a key is installed exactly when it has a history, and follows it. */
  ghost predicate FarHeld(m: Maps, h: seq<FarAttrs>, key: (u64, u32)) {
    && (key in m.fars <==> h != [])
    && (key in m.fars ==> FarFollows(m.fars[key], h))
  }

  ghost predicate PdrHeld(m: Maps, h: seq<PdrAttr>, key: (u64, u16)) {
    && (key in m.pdrs <==> h != [])
    && (key in m.pdrs ==> m.pdrs[key].seid == key.0 && m.pdrs[key].id == key.1 && PdrFollows(m.pdrs[key], h))
  }

  lemma {:induction false} FarsHeld(cs: seq<Command>, key: (u64, u32))
    ensures FarHeld(ApplyAll(EMPTY, cs), FarHistory(cs, key), key)
  {
    hide FarFollows, AfterFar;
    if cs == [] {
    } else {
      var n := |cs| - 1;
      FarsHeld(cs[..n], key);
      match cs[n] {
        case AddFar(nl, seid, id, a) =>
          if (seid, id) == key {
            FarRequest(ApplyAll(EMPTY, cs[..n]), FarHistory(cs[..n], key), nl, key, a);
            hide Apply;
          }
        case _ =>
      }
    }
  }

  lemma FarRequest(m: Maps, h: seq<FarAttrs>, nl: Flags, key: (u64, u32), a: FarAttrs)
    requires FarHeld(m, h, key)
    ensures FarHeld(Apply(m, AddFar(nl, key.0, key.1, a)).maps, AfterFar(h, nl, a), key)
  {
    hide FarFollows, FarFwd, FarAction, FarTaken;
    var f := if key in m.fars then m.fars[key] else FarConf(0, None);
    FarTakenIff(f.fwd, a);
    NewFarFollows();
    if FarTaken(a) { FarStep(f, h, a); }
    assert [] + [a] == [a];
  }

  lemma NewFarFollows()
    ensures FarFollows(FarConf(0, None), [])
  {}

  lemma NewPdrFollows()
    ensures PdrFollows(ZEROED, [])
  {}

  lemma {:induction false} PdrsHeld(cs: seq<Command>, key: (u64, u16))
    ensures PdrHeld(ApplyAll(EMPTY, cs), PdrHistory(cs, key), key)
  {
    hide PdrFollows, AfterPdr, FarHistory, LastGiven, PdrTaken;
    if cs == [] {
    } else {
      var n := |cs| - 1;
      PdrsHeld(cs[..n], key);
      match cs[n] {
        case AddPdr(nl, attrs, sockOk) => PdrRequest(cs, key);
        case _ =>
      }
    }
  }

  lemma PdrRequest(cs: seq<Command>, key: (u64, u16))
    requires cs != [] && cs[|cs| - 1].AddPdr?
    requires PdrHeld(ApplyAll(EMPTY, cs[..|cs| - 1]), PdrHistory(cs[..|cs| - 1], key), key)
    ensures PdrHeld(ApplyAll(EMPTY, cs), PdrHistory(cs, key), key)
  {
    hide PdrHeld, AfterPdr, PdrTaken, LastGiven, IdOf, SeidOf, FarHistory, FarFollows;
    var before, c := cs[..|cs| - 1], cs[|cs| - 1];
    var m, h := ApplyAll(EMPTY, before), PdrHistory(before, key);
    KeyIsLast(c.attrs);
    if IdOf(c.attrs) == Some(key.1) && SeidOf(c.attrs) == key.0 {
      hide Apply;
      var farId := LastGiven(h + c.attrs, FarIdOf);
      if farId.Some? { FarsHeld(before, (key.0, farId.value)); }
      AddHeld(m, h, c.nl, key, c.attrs, c.sockOk);
    } else {
      OtherPdr(m, h, c, key);
    }
  }

  lemma OtherPdr(m: Maps, h: seq<PdrAttr>, c: Command, key: (u64, u16))
    requires c.AddPdr? && PdrHeld(m, h, key)
    requires IdOf(c.attrs) != Some(key.1) || SeidOf(c.attrs) != key.0
    ensures PdrHeld(Apply(m, c).maps, h, key)
  {
    hide PdrFollows, Fill, IdOf, SeidOf;
  }

  lemma AddHeld(m: Maps, h: seq<PdrAttr>, nl: Flags, key: (u64, u16), attrs: seq<PdrAttr>, sockOk: bool)
    requires PdrHeld(m, h, key) && IdOf(attrs) == Some(key.1) && SeidOf(attrs) == key.0
    ensures var farId := LastGiven(h + attrs, FarIdOf);
            var taken := PdrTaken(attrs) && sockOk && farId.Some? && (key.0, farId.value) in m.fars;
            PdrHeld(Apply(m, AddPdr(nl, attrs, sockOk)).maps, AfterPdr(h, nl, attrs, taken), key)
  {
    assert attrs != [];
    hide PdrFollows, PdrTaken, Fill, LastGiven, IdOf, SeidOf, HasPrecedence, HasFarId, Apply;
    AddPdrAnswer(m, nl, attrs, sockOk);
    FillHeld(m, h, key, attrs);
    KeyIsLast(attrs);
    if h == [] { assert h + attrs == attrs; }
  }

  /** What filling the PDR of a key comes to. */
  lemma FillHeld(m: Maps, h: seq<PdrAttr>, key: (u64, u16), attrs: seq<PdrAttr>)
    requires PdrHeld(m, h, key) && IdOf(attrs) == Some(key.1) && SeidOf(attrs) == key.0
    ensures var e := Fill(if key in m.pdrs then m.pdrs[key] else ZEROED, attrs);
            && (e.ok <==> PdrTaken(attrs))
            && (e.ok ==> e.now.seid == key.0 && e.now.id == key.1 && PdrFollows(e.now, h + attrs)
                         && e.now.farId == LastGiven(h + attrs, FarIdOf))
  {
    hide Fill, LastGiven, IdOf, SeidOf, PdrTaken;
    var c := if key in m.pdrs then m.pdrs[key] else ZEROED;
    NewPdrFollows();
    PdrTakenIff(c, attrs);
    FillKeepsKey(c, attrs);
    if Fill(c, attrs).ok { FillStep(c, h, attrs); }
  }

  /** Of each accepted request for a QER since it was created, whether it gave a maximum bit rate. */
  function QerHistory(cs: seq<Command>, key: (u64, u32)): (h: seq<bool>) {
    if cs == [] then []
    else
      var h := QerHistory(cs[..|cs| - 1], key);
      match cs[|cs| - 1]
      case AddQer(nl, seid, id, mbr) =>
        if (seid, id) != key then h
        else if h != [] then (if nl.excl || !nl.replace then h else h + [mbr])
        else if nl.replace || nl.append then [] else [mbr]
      case DelQer(seid, id) => if (seid, id) == key then [] else h
      case _ => h
  }

  /** A QER enforces a rate exactly when it was ever given one. */
  lemma {:induction false} QersHeld(cs: seq<Command>, key: (u64, u32))
    ensures key in ApplyAll(EMPTY, cs).qers <==> QerHistory(cs, key) != []
    ensures key in ApplyAll(EMPTY, cs).qers ==> (ApplyAll(EMPTY, cs).qers[key] <==> true in QerHistory(cs, key))
  {
    hide Fill;
    if cs == [] {
    } else {
      QersHeld(cs[..|cs| - 1], key);
    }
  }

  // ---------- devices ----------

  /** After any run of requests to a device, every installed FAR and PDR holds what the requests
      accepted since it was created said last, every QER enforces a rate if one of them gave it
      one, and what is installed is what has a history. */
  lemma InstalledFollow(dev: Gtp5gDev, cs: seq<Command>)
    requires dev.Represents(ApplyAll(EMPTY, cs))
    ensures forall f | f in dev.fars :: FarFollows(FarConf(f.action, f.fwd), FarHistory(cs, (f.seid, f.id)))
    ensures forall p | p in dev.live :: PdrFollows(p.conf, PdrHistory(cs, (p.conf.seid, p.conf.id)))
    ensures forall q | q in dev.qers :: q.hasPolicers <==> true in QerHistory(cs, (q.seid, q.id))
    ensures forall key :: FarHistory(cs, key) != [] <==> dev.FarAt(key.0, key.1) != null
    ensures forall key :: PdrHistory(cs, key) != [] <==> dev.PdrAt(key.0, key.1) != null
  {
    hide FarFollows, PdrFollows, FarHistory, PdrHistory, QerHistory, ApplyAll;
    var m := ApplyAll(EMPTY, cs);
    forall key: (u64, u32)
      ensures FarHeld(m, FarHistory(cs, key), key)
      ensures FarHistory(cs, key) != [] <==> dev.FarAt(key.0, key.1) != null
    {
      FarsHeld(cs, key);
      dev.LookUpFar(m.fars, key.0, key.1);
    }
    forall q | q in dev.qers ensures q.hasPolicers <==> true in QerHistory(cs, (q.seid, q.id)) {
      QersHeld(cs, (q.seid, q.id));
    }
    forall key: (u64, u16)
      ensures PdrHeld(m, PdrHistory(cs, key), key)
      ensures PdrHistory(cs, key) != [] <==> dev.PdrAt(key.0, key.1) != null
    {
      PdrsHeld(cs, key);
      dev.LookUpPdr(m.pdrs, key.0, key.1);
    }
  }
}
