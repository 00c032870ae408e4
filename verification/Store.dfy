/** The rule store as netlink requests mean it: three finite maps from (session, identifier) to
    rules, with no hashing, no cached pointers and no reverse indexes. */
module Store {
  import opened Types
  import opened RuleData

  /** nlmsg flags of a request. */
  datatype Flags = Flags(excl: bool, replace: bool, append: bool)

  datatype Command =
    | AddPdr(nl: Flags, attrs: seq<PdrAttr>, sockOk: bool)
    | DelPdr(seid: u64, id: u16)
    | AddFar(nl: Flags, seid: u64, farId: u32, far: FarAttrs)
    | DelFar(seid: u64, farId: u32)
    | AddQer(nl: Flags, seid: u64, qerId: u32, mbr: bool)
    | DelQer(seid: u64, qerId: u32)

  datatype Status = Done | NoId | Exists | Unsupported | NotFound | Invalid | NullFarId

  datatype FarConf = FarConf(action: u16, fwd: Option<FwdParam>)

  datatype Maps = Maps(
    pdrs: map<(u64, u16), PdrConf>, fars: map<(u64, u32), FarConf>, qers: map<(u64, u32), bool>)

  const EMPTY: Maps := Maps(map[], map[], map[])

  datatype Answer = Answer(maps: Maps, status: Status)

  /** What the flags say about a key that is, or is not, in use; Done lets the request go on. */
  function Admission(nl: Flags, used: bool): (r: Status) {
    if used then (if nl.excl then Exists else if !nl.replace then Unsupported else Done)
    else if nl.replace then NotFound else if nl.append then Unsupported else Done
  }

  function WithPdr(m: Maps, c: PdrConf, key: (u64, u16), attrs: seq<PdrAttr>, sockOk: bool): (r: Answer) {
    var e := Fill(c, attrs);
    if e.ok && e.now.farId.Some? && (key.0, e.now.farId.value) in m.fars && sockOk
    then Answer(m.(pdrs := m.pdrs[key := e.now]), Done)
    else Answer(m.(pdrs := m.pdrs - {key}), Invalid)
  }

  /** A replacement that fails takes the rule away; a creation that fails adds none. */
  function Apply(m: Maps, c: Command): (r: Answer) {
    match c
    case AddPdr(nl, attrs, sockOk) =>
      if IdOf(attrs).None? then Answer(m, NoId)
      else
        var key := (SeidOf(attrs), IdOf(attrs).value);
        var admitted := Admission(nl, key in m.pdrs);
        if admitted != Done then Answer(m, admitted)
        else if key in m.pdrs then WithPdr(m, m.pdrs[key], key, attrs, sockOk)
        else if !HasPrecedence(attrs) then Answer(m, Invalid)
        else if !HasFarId(attrs) then Answer(m, if Fill(ZEROED, attrs).ok then NullFarId else Invalid)
        else WithPdr(m, ZEROED, key, attrs, sockOk)
    case DelPdr(seid, id) =>
      if (seid, id) in m.pdrs then Answer(m.(pdrs := m.pdrs - {(seid, id)}), Done) else Answer(m, NotFound)
    case AddFar(nl, seid, id, a) =>
      var key := (seid, id);
      var admitted := Admission(nl, key in m.fars);
      if admitted != Done then Answer(m, admitted)
      else if key !in m.fars && a.action.None? then Answer(m, Invalid)
      else
        var f := if key in m.fars then m.fars[key] else FarConf(0, None);
        var e := FarFwd(f.fwd, a);
        if e.ok then Answer(m.(fars := m.fars[key := FarConf(FarAction(f.action, a), e.fwd)]), Done)
        else Answer(m.(fars := m.fars - {key}), Invalid)
    case DelFar(seid, id) =>
      if (seid, id) in m.fars then Answer(m.(fars := m.fars - {(seid, id)}), Done) else Answer(m, NotFound)
    case AddQer(nl, seid, id, mbr) =>
      var key := (seid, id);
      var admitted := Admission(nl, key in m.qers);
      if admitted != Done then Answer(m, admitted)
      else Answer(m.(qers := m.qers[key := mbr || (key in m.qers && m.qers[key])]), Done)
    case DelQer(seid, id) =>
      if (seid, id) in m.qers then Answer(m.(qers := m.qers - {(seid, id)}), Done) else Answer(m, NotFound)
  }

  /** How a request for a PDR is answered, and what that answer means for the map. */
  lemma AddPdrAnswer(m: Maps, nl: Flags, attrs: seq<PdrAttr>, sockOk: bool)
    requires IdOf(attrs).Some?
    ensures var key := (SeidOf(attrs), IdOf(attrs).value);
            var used := key in m.pdrs;
            var e := Fill(if used then m.pdrs[key] else ZEROED, attrs);
            var fills := e.ok && e.now.farId.Some? && (key.0, e.now.farId.value) in m.fars && sockOk;
            var a := Apply(m, AddPdr(nl, attrs, sockOk));
            && a.status == (if Admission(nl, used) != Done then Admission(nl, used)
                            else if !used && !HasPrecedence(attrs) then Invalid
                            else if !used && !HasFarId(attrs) then (if e.ok then NullFarId else Invalid)
                            else if fills then Done else Invalid)
            && a.maps == m.(pdrs := if a.status == Done then m.pdrs[key := e.now]
                                    else if a.status == Invalid then m.pdrs - {key} else m.pdrs)
  {
    var key := (SeidOf(attrs), IdOf(attrs).value);
    assert key !in m.pdrs ==> m.pdrs - {key} == m.pdrs;
  }

  function ApplyAll(m: Maps, cs: seq<Command>): (r: Maps) {
    if cs == [] then m else Apply(ApplyAll(m, cs[..|cs| - 1]), cs[|cs| - 1]).maps
  }

  function Statuses(m: Maps, cs: seq<Command>): (r: seq<Status>) {
    if cs == [] then []
    else Statuses(m, cs[..|cs| - 1]) + [Apply(ApplyAll(m, cs[..|cs| - 1]), cs[|cs| - 1]).status]
  }
}
