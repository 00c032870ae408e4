/** The URR object: the loops over its PDRs that exhaust and restore FAR actions, packet
    counting, reporting and reconfiguration (urr.c, encap.c, genl_report.c, genl_urr.c). */
module UrrObject {
  import opened Types
  import opened Rules
  import opened Quota
  import opened Usage

  class Urr {
    const seid: u64
    const id: u32
    var s: State
    // what urr->pdrids and urr->actions remember, pdr_num entries each
    var savedIds: seq<u16>
    var savedActions: seq<u16>

    constructor (seid: u64, id: u32)
      ensures this.seid == seid && this.id == id && s == FRESH && savedIds == savedActions == []
    {
      this.seid, this.id, s, savedIds, savedActions := seid, id, FRESH, [], [];
    }
  }

  datatype Report = Report(urrId: u32, seid: u64, vol: Vol)

  /** The FARs behind the PDRs of a bucket. */
  ghost function FarsOf(nodes: seq<Pdr>): (r: set<Far>)
    reads nodes`far
  {
    set p | p in nodes && p.far != null :: p.far
  }

  ghost function Actions(fs: set<Far>): (r: map<Far, u16>)
    reads fs`action
  {
    map f | f in fs :: f.action
  }

  predicate Refers(p: Pdr, urrId: u32)
    reads p`conf
  {
    urrId in p.conf.urrIds
  }

  ghost function Visits(nodes: seq<Pdr>, urrId: u32): (vs: seq<Visit<Far>>)
    reads nodes`conf, nodes`far
    ensures forall k | 0 <= k < |vs| :: vs[k].far in FarsOf(nodes)
    ensures |vs| <= |nodes|
  {
    if nodes == [] then []
    else
      var n := |nodes| - 1;
      var before := Visits(nodes[..n], urrId);
      assert forall p | p in nodes[..n] :: p in nodes;
      if Refers(nodes[n], urrId) && nodes[n].far != null
      then before + [Visit(nodes[n].conf.id, nodes[n].far)] else before
  }

  ghost function Matching(nodes: seq<Pdr>, urrId: u32): (r: nat)
    reads nodes`conf
  {
    if nodes == [] then 0
    else Matching(nodes[..|nodes| - 1], urrId) + if Refers(nodes[|nodes| - 1], urrId) then 1 else 0
  }

  /** vss[i] are the visits made on the first i nodes. */
  ghost predicate VisitPrefixes(nodes: seq<Pdr>, urrId: u32, vss: seq<seq<Visit<Far>>>)
    reads nodes`conf, nodes`far
  {
    && |vss| == |nodes| + 1 && vss[0] == []
    && forall i | 0 <= i < |nodes| ::
         vss[i + 1] == if Refers(nodes[i], urrId) && nodes[i].far != null
                       then vss[i] + [Visit(nodes[i].conf.id, nodes[i].far)] else vss[i]
  }

  lemma {:induction false} VisitsInSteps(nodes: seq<Pdr>, urrId: u32) returns (vss: seq<seq<Visit<Far>>>)
    ensures VisitPrefixes(nodes, urrId, vss) && vss[|nodes|] == Visits(nodes, urrId)
    ensures forall i | 0 <= i <= |nodes| :: |vss[i]| <= Matching(nodes, urrId)
    ensures forall i | 0 <= i < |nodes| && Refers(nodes[i], urrId) :: |vss[i]| < Matching(nodes, urrId)
  {
    hide Refers;
    if nodes == [] {
      vss := [[]];
    } else {
      var n := |nodes| - 1;
      var before := VisitsInSteps(nodes[..n], urrId);
      assert forall i | 0 <= i < n :: nodes[..n][i] == nodes[i];
      vss := before + [Visits(nodes, urrId)];
    }
  }

  lemma VisitedAppend<F>(vs: seq<Visit<F>>, v: Visit<F>, f: F)
    ensures Visited(vs + [v], f) <==> Visited(vs, f) || v.far == f
  {
    var ws := vs + [v];
    assert ws[|vs|] == v;
    assert forall j | 0 <= j < |vs| :: ws[j] == vs[j];
  }

  lemma RemembersNothing<F>(act: map<F, u16>)
    ensures Remembers<F>([], act, [], [])
    ensures forall f: F | f in act :: !Visited([], f)
  {}

  lemma RemembersAppend<F>(vs: seq<Visit<F>>, v: Visit<F>, act: map<F, u16>, ids: seq<u16>, actions: seq<u16>, a: u16)
    requires Remembers(vs, act, ids, actions) && v.far in act
    requires a == if Visited(vs, v.far) then FAR_ACTION_DROP else act[v.far]
    ensures Remembers(vs + [v], act, ids + [v.pdrId], actions + [a])
  {
    var ws := vs + [v];
    assert ws[..|vs|] == vs;
    assert forall k | 0 <= k < |vs| :: ws[..k] == vs[..k];
  }

  /** The scan of the exhaust step: fills the two scratch buffers, which hold one entry per PDR
      of a session, and makes every FAR it meets drop. */
  method SaveAndDrop(u: Urr, nodes: seq<Pdr>) returns (pdrIds: seq<u16>, actions: seq<u16>)
    requires Matching(nodes, u.id) <= MAX_PDR_PER_SESSION
    modifies FarsOf(nodes)`action
    ensures var vs := old(Visits(nodes, u.id));
            && Remembers(vs, old(Actions(FarsOf(nodes))), pdrIds, actions) && |pdrIds| == |actions| <= 255
            && forall f | f in FarsOf(nodes) :: f.action == if Visited(vs, f) then FAR_ACTION_DROP else old(f.action)
  {
    hide Visits, Matching, Found, Visited, Remembers;
    ghost var fs, act, urrId := FarsOf(nodes), Actions(FarsOf(nodes)), u.id;
    ghost var vss := VisitsInSteps(nodes, urrId);
    pdrIds, actions := [], [];
    var i := 0;
    RemembersNothing(act);
    while i < |nodes|
      invariant 0 <= i <= |nodes|
      invariant Remembers(vss[i], act, pdrIds, actions) && |pdrIds| == |actions| == |vss[i]|
      invariant forall f | f in fs :: f.action == if Visited(vss[i], f) then FAR_ACTION_DROP else act[f]
      modifies fs`action
    {
      var pdr := nodes[i];
      if u.id in pdr.conf.urrIds {
        assert |pdrIds| < MAX_PDR_PER_SESSION;
        if pdr.far != null {
          ghost var vs := vss[i];
          ghost var v: Visit<Far> := Visit(pdr.conf.id, pdr.far);
          RemembersAppend(vs, v, act, pdrIds, actions, pdr.far.action);
          forall f | f in fs ensures Visited(vs + [v], f) <==> Visited(vs, f) || v.far == f { VisitedAppend(vs, v, f); }
          pdrIds, actions := pdrIds + [pdr.conf.id], actions + [pdr.far.action];
          pdr.far.action := FAR_ACTION_DROP;
        }
      }
      i := i + 1;
    }
  }

  /** urr_quota_exhaust_action: remembers what each matching PDR's FAR is doing and makes it
      drop. */
  method QuotaExhaustAction(u: Urr, nodes: seq<Pdr>)
    requires Matching(nodes, u.id) <= MAX_PDR_PER_SESSION
    modifies u`s, u`savedIds, u`savedActions, FarsOf(nodes)`action
    ensures u.s == Exhaust(old(u.s))
    ensures old(u.s.exhausted) ==>
              unchanged(u) && forall f | f in FarsOf(nodes) :: f.action == old(f.action)
    ensures !old(u.s.exhausted) ==>
              var vs := old(Visits(nodes, u.id));
              && Remembers(vs, old(Actions(FarsOf(nodes))), u.savedIds, u.savedActions)
              && |u.savedIds| == |u.savedActions|
              && forall f | f in FarsOf(nodes) :: f.action == if Visited(vs, f) then FAR_ACTION_DROP else old(f.action)
  {
    hide Visits, Matching, Visited, Remembers;
    if u.s.exhausted { return; }
    var pdrIds, actions := SaveAndDrop(u, nodes);
    u.savedIds, u.savedActions := pdrIds, actions;
    u.s := u.s.(info := u.s.info.(inam := true), exhausted := true);
  }

  lemma ReplayNothing(ids: seq<u16>, actions: seq<u16>)
    requires |ids| == |actions|
    ensures forall f: Far, now: u16 {:trigger Replay([], ids, actions, f, now)} ::
              Replay([], ids, actions, f, now) == now
  {}

  /** The inner loop of the reverse step, for one FAR. */
  method PutBack(u: Urr, id: u16, far: Far)
    requires |u.savedIds| == |u.savedActions|
    modifies far`action
    ensures far.action == Put(u.savedIds, u.savedActions, id, old(far.action))
  {
    var i := 0;
    var ids, actions := u.savedIds, u.savedActions;
    while i < |ids|
      invariant 0 <= i <= |ids|
      invariant far.action == Put(ids[..i], actions[..i], id, old(far.action))
    {
      assert ids[..i + 1][..i] == ids[..i] && actions[..i + 1][..i] == actions[..i];
      if ids[i] == id { far.action := actions[i]; }
      i := i + 1;
    }
    assert ids[..i] == ids && actions[..i] == actions;
  }

  /** urr_reverse_quota_exhaust_action */
  method ReverseQuotaExhaustAction(u: Urr, nodes: seq<Pdr>)
    requires |u.savedIds| == |u.savedActions|
    modifies u`s, FarsOf(nodes)`action
    ensures u.s == old(u.s).(exhausted := false)
    ensures forall f | f in FarsOf(nodes) :: f.action ==
              if old(u.s.exhausted)
              then Replay(old(Visits(nodes, u.id)), u.savedIds, u.savedActions, f, old(f.action)) else old(f.action)
  {
    hide Visits, Matching, Put, Exhaust, Replay;
    if !u.s.exhausted { return; }
    ghost var fs := FarsOf(nodes);
    ghost var vss := VisitsInSteps(nodes, u.id);
    ReplayNothing(u.savedIds, u.savedActions);
    var i := 0;
    while i < |nodes|
      invariant 0 <= i <= |nodes|
      invariant forall f | f in fs :: f.action == Replay(vss[i], u.savedIds, u.savedActions, f, old(f.action))
      modifies fs`action
    {
      var pdr := nodes[i];
      if u.id in pdr.conf.urrIds && pdr.far != null {
        ghost var v: Visit<Far> := Visit(pdr.conf.id, pdr.far);
        forall f | f in fs {
          ReplayAppend(vss[i], v, u.savedIds, u.savedActions, f, old(f.action));
        }
        PutBack(u, pdr.conf.id, pdr.far);
      }
      i := i + 1;
    }
    u.s := u.s.(exhausted := false);
  }

  /** Any positive number of exhaust calls does what the first one does: every linked FAR
      drops, and its own action stays remembered. */
  method ExhaustTimes(u: Urr, nodes: seq<Pdr>, times: nat)
    requires Matching(nodes, u.id) <= MAX_PDR_PER_SESSION && !u.s.exhausted && times > 0
    modifies u`s, u`savedIds, u`savedActions, FarsOf(nodes)`action
    ensures u.s == Exhaust(old(u.s)) && |u.savedIds| == |u.savedActions|
    ensures Remembers(old(Visits(nodes, u.id)), old(Actions(FarsOf(nodes))), u.savedIds, u.savedActions)
    ensures forall f | f in FarsOf(nodes) ::
              f.action == if Visited(old(Visits(nodes, u.id)), f) then FAR_ACTION_DROP else old(f.action)
    ensures forall p | p in nodes && Refers(p, u.id) && p.far != null :: p.far.action == FAR_ACTION_DROP
  {
    hide Visits, Remembers, Visited, Matching, Exhaust, Refers;
    ghost var vs, act := Visits(nodes, u.id), Actions(FarsOf(nodes));
    QuotaExhaustAction(u, nodes);
    ExhaustedStays(old(u.s));
    var n := 1;
    while n < times
      invariant u.s == Exhaust(old(u.s)) && |u.savedIds| == |u.savedActions|
      invariant Remembers(vs, act, u.savedIds, u.savedActions)
      invariant forall f | f in FarsOf(nodes) :: f.action == if Visited(vs, f) then FAR_ACTION_DROP else act[f]
    {
      QuotaExhaustAction(u, nodes);
      n := n + 1;
    }
    LinkedAreVisited(nodes, u.id);
  }

  lemma ExhaustedStays(s: State)
    ensures Exhaust(s).exhausted && Exhaust(Exhaust(s)) == Exhaust(s)
    ensures !s.exhausted ==> Exhaust(s).(exhausted := false) == s.(info := s.info.(inam := true))
  {}

  /** Any positive number of exhaust calls and then one reverse call: at the end each FAR has the
      action Restored says, which is its own one for all assignments exactly when PDR ids and
      FARs are distinct (Quota.RestoresIffDistinct). */
  method ExhaustThenReverse(u: Urr, nodes: seq<Pdr>, times: nat)
    requires Matching(nodes, u.id) <= MAX_PDR_PER_SESSION && !u.s.exhausted && times > 0
    modifies u`s, u`savedIds, u`savedActions, FarsOf(nodes)`action
    ensures var vs := old(Visits(nodes, u.id));
            forall f | f in FarsOf(nodes) ::
              && f.action == Restored(vs, old(Actions(FarsOf(nodes))), f)
              && (DistinctFars(vs) && DistinctIds(vs) ==> f.action == old(f.action))
    ensures u.s == old(u.s).(info := old(u.s).info.(inam := true))
  {
    hide Visits, Remembers, Replay, Restored, Visited, Matching, DistinctFars, DistinctIds, Refers, FarsOf, Exhaust;
    ghost var vs, act := Visits(nodes, u.id), Actions(FarsOf(nodes));
    ExhaustedStays(u.s);
    ExhaustTimes(u, nodes, times);
    ghost var now := Actions(FarsOf(nodes));
    ReverseQuotaExhaustAction(u, nodes);
    ReplayAllRestores(vs, act, u.savedIds, u.savedActions, now);
  }

  /** Some PDR with a node in the bucket refers to the URR and goes through f. */
  ghost predicate Behind(nodes: seq<Pdr>, urrId: u32, f: Far)
    reads nodes`conf, nodes`far
  {
    exists p :: p in nodes && Refers(p, urrId) && p.far == f
  }

  lemma LinkedAreVisited(nodes: seq<Pdr>, urrId: u32)
    ensures forall p | p in nodes && Refers(p, urrId) && p.far != null :: Visited(Visits(nodes, urrId), p.far)
  {
    forall p | p in nodes && Refers(p, urrId) && p.far != null ensures Visited(Visits(nodes, urrId), p.far) {
      assert Behind(nodes, urrId, p.far);
      VisitedIff(nodes, urrId, p.far);
    }
  }

  lemma {:induction false} VisitedIff(nodes: seq<Pdr>, urrId: u32, f: Far)
    ensures Visited(Visits(nodes, urrId), f) <==> Behind(nodes, urrId, f)
  {
    if nodes == [] {
    } else {
      var n := |nodes| - 1;
      var last, vs := nodes[n], Visits(nodes[..n], urrId);
      VisitedIff(nodes[..n], urrId, f);
      BehindAppend(nodes, urrId, f);
      hide Behind, Visited;
      if Refers(last, urrId) && last.far != null { VisitedAppend(vs, Visit(last.conf.id, last.far), f); }
    }
  }

  lemma BehindAppend(nodes: seq<Pdr>, urrId: u32, f: Far)
    requires nodes != []
    ensures var n := |nodes| - 1;
            Behind(nodes, urrId, f) <==> Behind(nodes[..n], urrId, f) || (Refers(nodes[n], urrId) && nodes[n].far == f)
  {
    var n := |nodes| - 1;
    assert forall p | p in nodes :: p in nodes[..n] || p == nodes[n];
    assert forall p | p in nodes[..n] :: p in nodes;
  }

  /** What a change of exhaustion does to the FARs. */
  twostate predicate FarsFollow(u: Urr, nodes: seq<Pdr>, move: QuotaMove, vs: seq<Visit<Far>>)
    reads u, FarsOf(nodes)`action, nodes`far
  {
    && FarsOf(nodes) == old(FarsOf(nodes))
    && |old(u.savedIds)| == |old(u.savedActions)|
    && forall f | f in FarsOf(nodes) :: f.action ==
         match move
         case Keep => old(f.action)
         case Exhausting => if Visited(vs, f) then FAR_ACTION_DROP else old(f.action)
         case Reversing => Replay(vs, old(u.savedIds), old(u.savedActions), f, old(f.action))
  }

  function MoveOf(before: State, after: State): (r: QuotaMove) {
    if !before.exhausted && after.exhausted then Exhausting else Keep
  }

  /** get_usage_report_counter: whether it leads to the second counter. */
  method GetUsageReportCounter(u: Urr, now: u32, previous: bool) returns (second: bool)
    ensures second == UsesSecond(u.s.period, now, previous)
  {
    if u.s.period == 0 { return false; }
    if now / u.s.period % 2 == 1 {
      return !previous;
    } else {
      return previous;
    }
  }

  method CountReport(u: Urr, lim: Option<Limit>, v: u64, up: bool, now: u32) returns (t: State, hit: bool)
    ensures var c := Add(Counter(u.s, now, false), v, up, u.s.info.mnop);
            t == WithCounter(u.s, now, false, c) && (hit <==> v != 0 && lim.Some? && Reached(c, lim.value))
  {
    var second := GetUsageReportCounter(u, now, false);
    hide Reached, Add, UsesSecond;
    var c;
    if second {
      c, hit := IncrementAndCheck(u.s.bytes2, lim, v, up, u.s.info.mnop);
      t := u.s.(bytes2 := c);
    } else {
      c, hit := IncrementAndCheck(u.s.bytes, lim, v, up, u.s.info.mnop);
      t := u.s.(bytes := c);
    }
  }

  /** The counting part of a turn: the report counter against the threshold, then the
      consumed volume against the quota. */
  method CountVolumes(u: Urr, now: u32, vol: u64, volMbqe: u64, up: bool) returns (reasons: seq<Usar>, over: bool)
    requires Measures(u.s, up)
    modifies u`s
    ensures var c := Count(old(u.s), now, vol, volMbqe, up);
            !c.stop && c.now == (if over then Exhaust(u.s) else u.s) && c.reasons == reasons
    ensures u.s.exhausted == old(u.s.exhausted)
  {
    hide Reached, Add, UsesSecond, Counter, Exhaust;
    var v := if u.s.info.mbqe then volMbqe else vol;
    var lim := if u.s.trigger.volth then Some(u.s.threshold) else None;
    var t, hit := CountReport(u, lim, v, up, now);
    reasons, over := if hit then [OverThreshold] else [], false;
    if t.trigger.volqu {
      var d;
      d, over := IncrementAndCheck(t.consumed, Some(t.quota), v, up, t.info.mnop);
      t := t.(consumed := d);
      if over { reasons := reasons + [OverQuota]; }
    }
    u.s := t;
  }

  /** One turn of the URR loop of update_urr_counter_and_send_report. */
  method CountPacket(u: Urr, nodes: seq<Pdr>, now: u32, vol: u64, volMbqe: u64, up: bool)
    returns (reasons: seq<Usar>, stop: bool)
    requires Matching(nodes, u.id) <= MAX_PDR_PER_SESSION && |u.savedIds| == |u.savedActions|
    modifies u`s, u`savedIds, u`savedActions, FarsOf(nodes)`action
    ensures Counted(u.s, reasons, stop) == Count(old(u.s), now, vol, volMbqe, up)
    ensures |u.savedIds| == |u.savedActions|
    ensures FarsFollow(u, nodes, MoveOf(old(u.s), u.s), old(Visits(nodes, u.id)))
  {
    hide Visits, Matching, Remembers, Reached, Add, Visited, Replay;
    if u.s.info.inam || !u.s.volum { return [], false; }
    if u.s.trigger == NO_TRIGGER { return [], true; }
    if u.s.trigger.start && up {
      QuotaExhaustAction(u, nodes);
      return [StartOfFlow], false;
    }
    var over;
    reasons, over := CountVolumes(u, now, vol, volMbqe, up);
    stop := false;
    if over {
      hide Count;
      QuotaExhaustAction(u, nodes);
    }
  }

  /** convert_urr_to_report: hands out the previous counter and zeroes it. */
  method ConvertToReport(u: Urr, now: u32) returns (r: Report)
    modifies u`s
    ensures r == Report(u.id, u.seid, Counter(old(u.s), now, true))
    ensures u.s == Drained(old(u.s), now)
  {
    var second := GetUsageReportCounter(u, now, true);
    if second {
      r := Report(u.id, u.seid, u.s.bytes2);
      u.s := u.s.(bytes2 := ZERO);
    } else {
      r := Report(u.id, u.seid, u.s.bytes);
      u.s := u.s.(bytes := ZERO);
    }
  }

  /** update_urr_counter_and_send_report for one URR of the packet's PDR. */
  method ProcessPacket(u: Urr, nodes: seq<Pdr>, now: u32, vol: u64, volMbqe: u64, up: bool, completes: bool)
    returns (reports: seq<Report>)
    requires Matching(nodes, u.id) <= MAX_PDR_PER_SESSION && |u.savedIds| == |u.savedActions|
    modifies u`s, u`savedIds, u`savedActions, FarsOf(nodes)`action
    ensures var o := Step(old(u.s), Packet(now, vol, volMbqe, up, completes));
            && u.s == o.now && |reports| == |o.reports|
            && forall i | 0 <= i < |reports| :: reports[i] == Report(u.id, u.seid, o.reports[i])
    ensures |u.savedIds| == |u.savedActions|
    ensures FarsFollow(u, nodes, MoveOf(old(u.s), u.s), old(Visits(nodes, u.id)))
  {
    reports := [];
    hide Visits, Matching, Visited, Count, Counter, Drained, Replay;
    if volMbqe == 0 { return; }
    var reasons, stop := CountPacket(u, nodes, now, vol, volMbqe, up);
    if !completes || stop { return; }
    ghost var s := u.s;
    ReportsKeepRest(s, now, |reasons|);
    var i := 0;
    while i < |reasons|
      invariant 0 <= i <= |reasons| && |reports| == i
      invariant Reports(s, now, i).now == u.s && |Reports(s, now, i).reports| == i
      invariant forall k | 0 <= k < i :: reports[k] == Report(u.id, u.seid, Reports(s, now, i).reports[k])
      modifies u`s
    {
      var r := ConvertToReport(u, now);
      reports := reports + [r];
      i := i + 1;
    }
  }

  /** parse_volumethreshold and parse_volumeqouta. */
  method ParseLimit(l: Limit, a: LimitAttr) returns (r: Limit)
    ensures r == Merge(l, a)
  {
    r := l;
    if a.flags.Some? {
      var (tovol, ulvol, dlvol) := a.flags.value;
      r := r.(tovol := tovol, ulvol := ulvol, dlvol := dlvol);
    }
    if a.total.Some? { r := r.(total := a.total.value); }
    if a.ul.Some? { r := r.(ul := a.ul.value); }
    if a.dl.Some? { r := r.(dl := a.dl.value); }
  }

  /** The attributes urr_fill takes before it looks at the quota. */
  method Configure(u: Urr, a: UrrAttrs)
    modifies u`s
    ensures u.s == Configured(old(u.s), a)
  {
    hide Merge;
    if a.volum.Some? { u.s := u.s.(volum := a.volum.value); }
    if a.trigger.Some? {
      u.s := u.s.(trigger := a.trigger.value);
      if u.s.trigger == ONLY_START { u.s := u.s.(bytes := ZERO, bytes2 := ZERO); }
    }
    if a.period.Some? { u.s := u.s.(period := a.period.value); }
    if a.info.Some? { u.s := u.s.(info := a.info.value); }
    if a.threshold.Some? {
      var threshold := ParseLimit(u.s.threshold, a.threshold.value);
      u.s := u.s.(threshold := threshold);
    }
  }

  /** urr_fill, given the bucket of PDRs that refer to the URR. */
  method UrrFill(u: Urr, nodes: seq<Pdr>, a: UrrAttrs)
    requires Matching(nodes, u.id) <= MAX_PDR_PER_SESSION && |u.savedIds| == |u.savedActions|
    modifies u`s, u`savedIds, u`savedActions, FarsOf(nodes)`action
    ensures u.s == Fill(old(u.s), a)
    ensures |u.savedIds| == |u.savedActions|
    ensures FarsFollow(u, nodes, QuotaMoveOf(old(u.s), a), old(Visits(nodes, u.id)))
  {
    hide Visits, Matching, Visited, Remembers, Replay, Configured, Merge;
    Configure(u, a);
    if a.quota.Some? {
      var quota := ParseLimit(u.s.quota, a.quota.value);
      u.s := u.s.(quota := quota, consumed := ZERO);
      if u.s.quota.total == 0 && u.s.trigger == ONLY_VOLQU {
        QuotaExhaustAction(u, nodes);
      } else if u.s.exhausted {
        ReverseQuotaExhaustAction(u, nodes);
      }
    }
  }

  /** On a device: exhausting a URR makes exactly the FARs drop that stand behind a PDR with a
      node in the URR's bucket and the URR's id in its list, of whatever session that PDR is; every
      installed PDR that refers to the URR drops, and the rule store stays valid. */
  method ExhaustOnDevice(dev: Gtp5gDev, u: Urr)
    requires dev.Valid() && |dev.relatedUrr| == dev.hashSize && dev.hashSize > 0 && !u.s.exhausted
    requires Matching(dev.relatedUrr[dev.IdBucket(u.seid, u.id)], u.id) <= MAX_PDR_PER_SESSION
    modifies u`s, u`savedIds, u`savedActions, FarsOf(dev.relatedUrr[dev.IdBucket(u.seid, u.id)])`action
    ensures dev.Valid() && u.s.exhausted && u.s.info.inam
    ensures forall f | f in dev.fars :: f.action ==
              if Behind(dev.relatedUrr[dev.IdBucket(u.seid, u.id)], u.id, f) then FAR_ACTION_DROP else old(f.action)
    ensures forall p | p in dev.live && p.conf.seid == u.seid && u.id in p.conf.urrIds && p.far != null ::
              p.far.action == FAR_ACTION_DROP
    ensures forall p | p in dev.live && u.id in p.conf.urrIds && p.far != null
                       && dev.IdBucket(p.conf.seid, u.id) == dev.IdBucket(u.seid, u.id) ::
              p.far.action == FAR_ACTION_DROP
  {
    var nodes := dev.relatedUrr[dev.IdBucket(u.seid, u.id)];
    forall p | p in dev.live && u.id in p.conf.urrIds && dev.IdBucket(p.conf.seid, u.id) == dev.IdBucket(u.seid, u.id)
      ensures p in nodes
    {
      dev.UrrBucketComplete(p, u.id);
    }
    LinkedAreVisited(nodes, u.id);
    forall f: Far | f in dev.fars
      ensures Visited(Visits(nodes, u.id), f) <==> Behind(nodes, u.id, f)
      ensures Behind(nodes, u.id, f) ==> f in FarsOf(nodes)
    {
      VisitedIff(nodes, u.id, f);
    }
    hide Gtp5gDev.Valid, Gtp5gDev.ValidBut, Visits, Matching, Remembers, Behind, Visited;
    QuotaExhaustAction(u, nodes);
  }
}
