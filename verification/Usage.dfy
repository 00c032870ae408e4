/** Usage reporting rules as values: counters, thresholds, quotas, reports, and what any run
    of packets, reports and reconfigurations does to them (encap.c, urr.c, genl_report.c,
    genl_urr.c). */
module Usage {
  import opened Types

  /** 64-bit addition. */
  function Plus(a: u64, b: u64): (r: u64) {
    if a as int + b as int < TWO64 then a as int + b as int else a as int + b as int - TWO64
  }

  /** struct VolumeMeasurement; every field is a 64-bit counter. */
  datatype Vol = Vol(total: u64, ul: u64, dl: u64, totalPkt: u64, ulPkt: u64, dlPkt: u64) {
    function Dir(up: bool): (r: u64) { if up then ul else dl }
  }

  const ZERO: Vol := Vol(0, 0, 0, 0, 0, 0)

  ghost predicate Consistent(m: Vol) { m.total == Plus(m.ul, m.dl) && m.totalPkt == Plus(m.ulPkt, m.dlPkt) }

  /** struct Volume: a threshold or a quota, with a flag bit and a value for each part. */
  datatype Limit = Limit(tovol: bool, ulvol: bool, dlvol: bool, total: u64, ul: u64, dl: u64)

  /** A part counts only when its flag is set and its value is not zero. */
  predicate Reached(m: Vol, lim: Limit) {
    || (lim.tovol && lim.total != 0 && m.total >= lim.total)
    || (lim.ulvol && lim.ul != 0 && m.ul >= lim.ul)
    || (lim.dlvol && lim.dl != 0 && m.dl >= lim.dl)
  }

  /** One packet of volume v, counted in one direction. */
  function Add(m: Vol, v: u64, up: bool, mnop: bool): (r: Vol)
    ensures r.Dir(up) == Plus(m.Dir(up), v) && r.Dir(!up) == m.Dir(!up)
    ensures Consistent(m) ==> Consistent(r)
  {
    if v == 0 then m
    else
      var ulPkt := if mnop && up then Plus(m.ulPkt, 1) else m.ulPkt;
      var dlPkt := if mnop && !up then Plus(m.dlPkt, 1) else m.dlPkt;
      var totalPkt := if mnop then Plus(ulPkt, dlPkt) else m.totalPkt;
      var ul := if up then Plus(m.ul, v) else m.ul;
      var dl := if up then m.dl else Plus(m.dl, v);
      Vol(Plus(ul, dl), ul, dl, totalPkt, ulPkt, dlPkt)
  }

  /** increment_and_check_counter, with the counter passed in and handed back. */
  method IncrementAndCheck(m: Vol, lim: Option<Limit>, vol: u64, up: bool, mnop: bool) returns (r: Vol, hit: bool)
    ensures r == Add(m, vol, up, mnop)
    ensures hit <==> vol != 0 && lim.Some? && Reached(r, lim.value)
  {
    r := m;
    if vol == 0 { return r, false; }
    if mnop {
      if up {
        r := r.(ulPkt := Plus(r.ulPkt, 1));
      } else {
        r := r.(dlPkt := Plus(r.dlPkt, 1));
      }
      r := r.(totalPkt := Plus(r.ulPkt, r.dlPkt));
    }
    if up {
      r := r.(ul := Plus(r.ul, vol));
    } else {
      r := r.(dl := Plus(r.dl, vol));
    }
    r := r.(total := Plus(r.ul, r.dl));
    if lim.None? { return r, false; }
    var l := lim.value;
    if l.total != 0 && r.total >= l.total && l.tovol { return r, true; }
    if l.ul != 0 && r.ul >= l.ul && l.ulvol { return r, true; }
    if l.dl != 0 && r.dl >= l.dl && l.dlvol { return r, true; }
    return r, false;
  }

  /** The reporting-trigger word: the three bits packet handling looks at, and the rest. */
  datatype Trigger = Trigger(start: bool, volth: bool, volqu: bool, others: u32)

  const NO_TRIGGER: Trigger := Trigger(false, false, false, 0)
  const ONLY_START: Trigger := Trigger(true, false, false, 0)
  const ONLY_VOLQU: Trigger := Trigger(false, false, true, 0)

  /** inam stops measurement, mnop counts packets, mbqe counts before rate enforcement. */
  datatype Info = Info(inam: bool, mnop: bool, mbqe: bool)

  datatype State = State(
    volum: bool, trigger: Trigger, period: u32, info: Info, threshold: Limit, quota: Limit,
    bytes: Vol, bytes2: Vol, consumed: Vol, exhausted: bool)

  const NO_LIMIT: Limit := Limit(false, false, false, 0, 0, 0)

  /** A zeroed URR. */
  const FRESH: State :=
    State(false, NO_TRIGGER, 0, Info(false, false, false), NO_LIMIT, NO_LIMIT, ZERO, ZERO, ZERO, false)

  /** get_usage_report_counter: whether the second counter is meant. With no period there is
      only the first; otherwise the two take turns, and a report wants the previous one. */
  predicate UsesSecond(period: u32, now: u32, previous: bool) {
    period != 0 && (now / period % 2 == 1) != previous
  }

  function Counter(s: State, now: u32, previous: bool): (r: Vol) {
    if UsesSecond(s.period, now, previous) then s.bytes2 else s.bytes
  }

  function WithCounter(s: State, now: u32, previous: bool, m: Vol): (r: State) {
    if UsesSecond(s.period, now, previous) then s.(bytes2 := m) else s.(bytes := m)
  }

  /** convert_urr_to_report zeroes the counter it reports. */
  function Drained(s: State, now: u32): (r: State) { WithCounter(s, now, true, ZERO) }

  /** urr_quota_exhaust_action on the URR itself. */
  function Exhaust(s: State): (r: State) {
    if s.exhausted then s else s.(info := s.info.(inam := true), exhausted := true)
  }

  datatype Usar = StartOfFlow | OverThreshold | OverQuota

  /** stop: the URR has no trigger at all, and the whole packet is given up. */
  datatype Counted = Counted(now: State, reasons: seq<Usar>, stop: bool)

  predicate Measures(s: State, up: bool) {
    !s.info.inam && s.volum && s.trigger != NO_TRIGGER && !(s.trigger.start && up)
  }

  function Measured(s: State, vol: u64, volMbqe: u64): (r: u64) { if s.info.mbqe then volMbqe else vol }

  /** One turn of the URR loop of update_urr_counter_and_send_report. */
  function Count(s: State, now: u32, vol: u64, volMbqe: u64, up: bool): (r: Counted) {
    if s.info.inam || !s.volum then Counted(s, [], false)
    else if s.trigger == NO_TRIGGER then Counted(s, [], true)
    else if s.trigger.start && up then Counted(Exhaust(s), [StartOfFlow], false)
    else
      var v := Measured(s, vol, volMbqe);
      var c := Add(Counter(s, now, false), v, up, s.info.mnop);
      var s1 := WithCounter(s, now, false, c);
      var r1 := if s.trigger.volth && v != 0 && Reached(c, s.threshold) then [OverThreshold] else [];
      if !s.trigger.volqu then Counted(s1, r1, false)
      else
        var d := Add(s.consumed, v, up, s.info.mnop);
        var s2 := s1.(consumed := d);
        if v != 0 && Reached(d, s.quota) then Counted(Exhaust(s2), r1 + [OverQuota], false)
        else Counted(s2, r1, false)
  }

  /** New values for a limit; whatever is absent stays. */
  datatype LimitAttr = LimitAttr(
    flags: Option<(bool, bool, bool)>, total: Option<u64>, ul: Option<u64>, dl: Option<u64>)

  function Merge(l: Limit, a: LimitAttr): (r: Limit) {
    var l1 := if a.flags.None? then l
              else l.(tovol := a.flags.value.0, ulvol := a.flags.value.1, dlvol := a.flags.value.2);
    l1.(total := if a.total.Some? then a.total.value else l.total,
        ul := if a.ul.Some? then a.ul.value else l.ul,
        dl := if a.dl.Some? then a.dl.value else l.dl)
  }

  datatype UrrAttrs = UrrAttrs(
    volum: Option<bool>, trigger: Option<Trigger>, period: Option<u32>, info: Option<Info>,
    threshold: Option<LimitAttr>, quota: Option<LimitAttr>)

  function Or<T>(o: Option<T>, d: T): (r: T) { if o.Some? then o.value else d }

  /** urr_fill up to the quota, in the order the attributes are taken. */
  function Configured(s: State, a: UrrAttrs): (r: State) {
    var clear := a.trigger.Some? && a.trigger.value == ONLY_START;
    s.(volum := Or(a.volum, s.volum), trigger := Or(a.trigger, s.trigger),
       bytes := if clear then ZERO else s.bytes, bytes2 := if clear then ZERO else s.bytes2,
       period := Or(a.period, s.period), info := Or(a.info, s.info),
       threshold := if a.threshold.Some? then Merge(s.threshold, a.threshold.value) else s.threshold)
  }

  datatype QuotaMove = Keep | Exhausting | Reversing

  function QuotaMoveOf(s: State, a: UrrAttrs): (r: QuotaMove) {
    var t := Configured(s, a);
    if a.quota.None? then Keep
    else if Merge(t.quota, a.quota.value).total == 0 && t.trigger == ONLY_VOLQU then
      if t.exhausted then Keep else Exhausting
    else if t.exhausted then Reversing
    else Keep
  }

  /** urr_fill: a new quota restarts the consumed volume; a zero one exhausts at once, any
      other ends an exhaustion (but leaves the inam bit as it is). */
  function Fill(s: State, a: UrrAttrs): (r: State) {
    var t := Configured(s, a);
    if a.quota.None? then t
    else
      var u := t.(quota := Merge(t.quota, a.quota.value), consumed := ZERO);
      match QuotaMoveOf(s, a)
      case Keep => u
      case Exhausting => Exhaust(u)
      case Reversing => u.(exhausted := false)
  }

  // ---------- runs ----------

  /** completes: no later URR of the same PDR gave the packet up, so reports go out. */
  datatype Event =
    | Packet(now: u32, vol: u64, volMbqe: u64, up: bool, completes: bool)
    | Query(now: u32)
    | Config(attrs: UrrAttrs)

  datatype Outcome = Outcome(now: State, reports: seq<Vol>)

  /** n reports one after the other. */
  function Reports(s: State, now: u32, n: nat): (r: Outcome) {
    if n == 0 then Outcome(s, [])
    else
      var o := Reports(s, now, n - 1);
      Outcome(Drained(o.now, now), o.reports + [Counter(o.now, now, true)])
  }

  function Step(s: State, e: Event): (r: Outcome) {
    match e
    case Packet(now, vol, volMbqe, up, completes) =>
      if volMbqe == 0 then Outcome(s, [])
      else
        var c := Count(s, now, vol, volMbqe, up);
        if completes && !c.stop then Reports(c.now, now, |c.reasons|) else Outcome(c.now, [])
    case Query(now) => Reports(s, now, 1)
    case Config(a) => Outcome(Fill(s, a), [])
  }

  function Run(s: State, es: seq<Event>): (r: Outcome) {
    if es == [] then Outcome(s, [])
    else
      var o := Run(s, es[..|es| - 1]);
      var p := Step(o.now, es[|es| - 1]);
      Outcome(p.now, o.reports + p.reports)
  }

  // ---------- conservation ----------

  /** What an event adds to the measured volume of a direction, and what a reset discards. */
  function Arrived(s: State, e: Event, up: bool): (r: nat) {
    if e.Packet? && e.volMbqe != 0 && Measures(s, e.up) && e.up == up
    then Measured(s, e.vol, e.volMbqe) else 0
  }

  function Discarded(s: State, e: Event, up: bool): (r: nat) {
    if e.Config? && e.attrs.trigger == Some(ONLY_START) then s.bytes.Dir(up) + s.bytes2.Dir(up) else 0
  }

  function Sum(ms: seq<Vol>, up: bool): (r: nat) {
    if ms == [] then 0 else Sum(ms[..|ms| - 1], up) + ms[|ms| - 1].Dir(up)
  }

  lemma {:induction false} SumAppend(a: seq<Vol>, b: seq<Vol>, up: bool)
    ensures Sum(a + b, up) == Sum(a, up) + Sum(b, up)
  {
    if b == [] {
      assert a + b == a;
    } else {
      assert (a + b)[..|a + b| - 1] == a + b[..|b| - 1];
      SumAppend(a, b[..|b| - 1], up);
    }
  }

  function Held(s: State, up: bool): (r: nat) { s.bytes.Dir(up) + s.bytes2.Dir(up) }

  /** lost is a whole number of counter wrap-arounds. */
  ghost predicate WholeWraps(lost: int) { lost >= 0 && lost % TWO64 == 0 }

  lemma {:induction false} ReportsConserve(s: State, now: u32, n: nat, up: bool)
    ensures var o := Reports(s, now, n); Held(o.now, up) + Sum(o.reports, up) == Held(s, up)
  {
    if n == 0 {
    } else {
      ReportsConserve(s, now, n - 1, up);
      var o := Reports(s, now, n - 1);
      var m := Counter(o.now, now, true);
      SumAppend(o.reports, [m], up);
      assert Sum([m], up) == m.Dir(up) by { assert [m][..0] == []; }
    }
  }

  ghost predicate SameCounters(a: State, b: State) {
    a.period == b.period && a.bytes == b.bytes && a.bytes2 == b.bytes2
  }

  /** What a packet does to the two report counters. */
  lemma CountMovesCounters(s: State, now: u32, vol: u64, volMbqe: u64, up: bool)
    ensures var t := if !Measures(s, up) then s else
                       WithCounter(s, now, false,
                                   Add(Counter(s, now, false), Measured(s, vol, volMbqe), up, s.info.mnop));
            SameCounters(Count(s, now, vol, volMbqe, up).now, t)
  {
    hide Add, Reached, UsesSecond;
  }

  lemma AddConserves(m: Vol, v: u64, up: bool, mnop: bool, dir: bool)
    ensures WholeWraps(m.Dir(dir) + (if up == dir then v else 0) - Add(m, v, up, mnop).Dir(dir))
  {}

  lemma CountConserves(s: State, now: u32, vol: u64, volMbqe: u64, pktUp: bool, up: bool)
    ensures var c := Count(s, now, vol, volMbqe, pktUp);
            var v := if Measures(s, pktUp) && pktUp == up then Measured(s, vol, volMbqe) else 0;
            WholeWraps(Held(s, up) + v - Held(c.now, up))
  {
    CountMovesCounters(s, now, vol, volMbqe, pktUp);
    AddConserves(Counter(s, now, false), Measured(s, vol, volMbqe), pktUp, s.info.mnop, up);
    hide Count, Measures, Measured, Add, UsesSecond;
  }

  lemma NothingYet(up: bool)
    ensures WholeWraps(0) && Sum([], up) == 0
  {}

  lemma FillHolds(s: State, a: UrrAttrs, up: bool)
    ensures Held(s, up) == Held(Fill(s, a), up) + Discarded(s, Config(a), up)
  {}

  /** Nothing is lost in a step except whole wrap-arounds of a 64-bit counter. */
  lemma StepConserves(s: State, e: Event, up: bool)
    ensures var o := Step(s, e);
            WholeWraps(Held(s, up) + Arrived(s, e, up) - Held(o.now, up) - Sum(o.reports, up) - Discarded(s, e, up))
  {
    hide Count, Measures, Measured, Reached, Reports, Fill, Held, WholeWraps, Sum;
    NothingYet(up);
    match e
    case Packet(now, vol, volMbqe, pktUp, completes) =>
      if volMbqe != 0 {
        var c := Count(s, now, vol, volMbqe, pktUp);
        CountConserves(s, now, vol, volMbqe, pktUp, up);
        if completes && !c.stop { ReportsConserve(c.now, now, |c.reasons|, up); }
      }
    case Query(now) => ReportsConserve(s, now, 1, up);
    case Config(a) => FillHolds(s, a, up);
  }

  function TotalArrived(s: State, es: seq<Event>, up: bool): (r: nat) {
    if es == [] then 0
    else TotalArrived(s, es[..|es| - 1], up) + Arrived(Run(s, es[..|es| - 1]).now, es[|es| - 1], up)
  }

  function TotalDiscarded(s: State, es: seq<Event>, up: bool): (r: nat) {
    if es == [] then 0
    else TotalDiscarded(s, es[..|es| - 1], up) + Discarded(Run(s, es[..|es| - 1]).now, es[|es| - 1], up)
  }

  lemma WholeWrapsAdd(a: int, b: int)
    requires WholeWraps(a) && WholeWraps(b)
    ensures WholeWraps(a + b)
  {}

  /** Over any run and for each direction, the volume counted is the volume reported plus the
      volume still held plus what start-trigger resets threw away, up to wrap-arounds. */
  lemma {:induction false} UsageConserved(s: State, es: seq<Event>, up: bool)
    ensures var o := Run(s, es);
            WholeWraps(Held(s, up) + TotalArrived(s, es, up)
                       - Sum(o.reports, up) - Held(o.now, up) - TotalDiscarded(s, es, up))
  {
    hide Step, Arrived, Discarded, Held, WholeWraps, Sum;
    if es == [] {
      NothingYet(up);
    } else {
      var es', e := es[..|es| - 1], es[|es| - 1];
      UsageConserved(s, es', up);
      var o := Run(s, es');
      StepConserves(o.now, e, up);
      SumAppend(o.reports, Step(o.now, e).reports, up);
      WholeWrapsAdd(Held(s, up) + TotalArrived(s, es', up)
                    - Sum(o.reports, up) - Held(o.now, up) - TotalDiscarded(s, es', up),
                    Held(o.now, up) + Arrived(o.now, e, up) - Held(Step(o.now, e).now, up)
                    - Sum(Step(o.now, e).reports, up) - Discarded(o.now, e, up));
    }
  }

  lemma NoWrap(lost: int)
    requires WholeWraps(lost) && lost < TWO64
    ensures lost == 0
  {}

  /** While fewer than 2^64 bytes have been counted the balance is exact. */
  lemma UsageConservedExactly(s: State, es: seq<Event>, up: bool)
    requires Held(s, up) + TotalArrived(s, es, up) < TWO64
    ensures var o := Run(s, es);
            Held(s, up) + TotalArrived(s, es, up) ==
            Sum(o.reports, up) + Held(o.now, up) + TotalDiscarded(s, es, up)
  {
    hide *;
    UsageConserved(s, es, up);
    var o := Run(s, es);
    NoWrap(Held(s, up) + TotalArrived(s, es, up)
           - Sum(o.reports, up) - Held(o.now, up) - TotalDiscarded(s, es, up));
  }

  ghost predicate AllConsistent(s: State) { Consistent(s.bytes) && Consistent(s.bytes2) && Consistent(s.consumed) }

  lemma {:induction false} ReportsConsistent(s: State, now: u32, n: nat)
    requires AllConsistent(s)
    ensures var o := Reports(s, now, n); AllConsistent(o.now) && forall m | m in o.reports :: Consistent(m)
  {
    if n == 0 {
    } else {
      ReportsConsistent(s, now, n - 1);
    }
  }

  /** In every counter and every report the total is uplink plus downlink. */
  lemma {:induction false} TotalsAgree(s: State, es: seq<Event>)
    requires AllConsistent(s)
    ensures var o := Run(s, es); AllConsistent(o.now) && forall m | m in o.reports :: Consistent(m)
  {
    if es == [] {
    } else {
      TotalsAgree(s, es[..|es| - 1]);
      hide Step, AllConsistent, Consistent;
      StepConsistent(Run(s, es[..|es| - 1]).now, es[|es| - 1]);
    }
  }

  lemma StepConsistent(s: State, e: Event)
    requires AllConsistent(s)
    ensures var o := Step(s, e); AllConsistent(o.now) && forall m | m in o.reports :: Consistent(m)
  {
    hide Count, Reports, Consistent;
    match e
    case Packet(now, vol, volMbqe, up, completes) =>
      if volMbqe != 0 {
        var c := Count(s, now, vol, volMbqe, up);
        CountConsistent(s, now, vol, volMbqe, up);
        ReportsConsistent(c.now, now, |c.reasons|);
      }
    case Query(now) => ReportsConsistent(s, now, 1);
    case Config(a) => ZeroConsistent();
  }

  lemma CountConsistent(s: State, now: u32, vol: u64, volMbqe: u64, up: bool)
    requires AllConsistent(s)
    ensures AllConsistent(Count(s, now, vol, volMbqe, up).now)
  {
    hide Reached, UsesSecond;
  }

  lemma ZeroConsistent()
    ensures Consistent(ZERO)
  {}

  // ---------- quotas ----------

  /** An unexhausted URR is strictly below a total quota that is flagged and not zero. */
  ghost predicate BelowQuota(s: State) {
    s.quota.tovol && s.quota.total != 0 && !s.exhausted ==> s.consumed.total < s.quota.total
  }

  lemma {:induction false} ReportsKeepRest(s: State, now: u32, n: nat)
    ensures var t := Reports(s, now, n).now; t.(bytes := s.bytes, bytes2 := s.bytes2) == s
  {
    if n == 0 {
    } else {
      ReportsKeepRest(s, now, n - 1);
    }
  }

  lemma CountBelowQuota(s: State, now: u32, vol: u64, volMbqe: u64, up: bool)
    requires BelowQuota(s)
    ensures BelowQuota(Count(s, now, vol, volMbqe, up).now)
  {
    hide UsesSecond, Reached;
    if !s.exhausted && s.quota.tovol && s.quota.total != 0 {
      var d := Add(s.consumed, Measured(s, vol, volMbqe), up, s.info.mnop);
      if !Reached(d, s.quota) { ReachedByTotal(d, s.quota); }
    }
  }

  lemma ReachedByTotal(m: Vol, lim: Limit)
    requires lim.tovol && lim.total != 0 && !Reached(m, lim)
    ensures m.total < lim.total
  {}

  lemma StepBelowQuota(s: State, e: Event)
    requires BelowQuota(s)
    ensures BelowQuota(Step(s, e).now)
  {
    hide Count, Reports;
    match e
    case Packet(now, vol, volMbqe, up, completes) =>
      var c := Count(s, now, vol, volMbqe, up);
      CountBelowQuota(s, now, vol, volMbqe, up);
      ReportsKeepRest(c.now, now, |c.reasons|);
    case Query(now) => ReportsKeepRest(s, now, 1);
    case Config(a) =>
  }

  /** In every state any run reaches. */
  lemma {:induction false} AlwaysBelowQuota(es: seq<Event>)
    ensures BelowQuota(Run(FRESH, es).now)
  {
    if es == [] {
    } else {
      AlwaysBelowQuota(es[..|es| - 1]);
      hide Step, BelowQuota;
      StepBelowQuota(Run(FRESH, es[..|es| - 1]).now, es[|es| - 1]);
    }
  }

  /** A packet that exhausts a URR takes it past the quota by less than its own volume, and
      measurement is off from then on. */
  lemma OvershootBounded(s: State, now: u32, vol: u64, volMbqe: u64, up: bool)
    requires BelowQuota(s) && Consistent(s.consumed) && !s.exhausted
    requires Count(s, now, vol, volMbqe, up).now.exhausted
    ensures var t := Count(s, now, vol, volMbqe, up).now;
            && t.info.inam
            && (s.quota.tovol && s.quota.total != 0 ==>
                  t.consumed.total as int < s.quota.total as int + Measured(s, vol, volMbqe) as int)
  {
    hide Reached, UsesSecond;
  }

  ghost predicate LeavesInam(e: Event) { e.Config? && e.attrs.info.Some? ==> e.attrs.info.value.inam }

  /** Once measurement is off nothing is counted, whatever happens, until a reconfiguration
      brings measurement information with the bit clear. A new quota alone does not help. */
  lemma {:induction false} StoppedUntilNewInfo(s: State, es: seq<Event>, up: bool)
    requires s.info.inam && forall e | e in es :: LeavesInam(e)
    ensures Run(s, es).now.info.inam && TotalArrived(s, es, up) == 0
    ensures (forall e | e in es :: e.Packet?) ==> Run(s, es) == Outcome(s, [])
  {
    if es == [] {
    } else {
      var es', e := es[..|es| - 1], es[|es| - 1];
      assert e in es && forall x | x in es' :: x in es;
      StoppedUntilNewInfo(s, es', up);
      var t := Run(s, es').now;
      match e
      case Packet(now, vol, volMbqe, pktUp, completes) =>
      case Query(now) => ReportsKeepRest(t, now, 1);
      case Config(a) =>
    }
  }

  /** Exactly when a reconfiguration turns measurement back on. */
  lemma ResumesExactly(s: State, a: UrrAttrs)
    requires s.info.inam
    ensures !Fill(s, a).info.inam <==>
            a.info.Some? && !a.info.value.inam && QuotaMoveOf(s, a) != Exhausting
  {}

  /** Exactly which URRs are exhausted after a reconfiguration, and which counters it empties. */
  lemma FilledExactly(s: State, a: UrrAttrs)
    ensures var t := Fill(s, a);
            var total := if a.quota.Some? && a.quota.value.total.Some?
                         then a.quota.value.total.value else s.quota.total;
            && t.trigger == (if a.trigger.Some? then a.trigger.value else s.trigger)
            && (t.exhausted <==>
                  if a.quota.None? then s.exhausted else total == 0 && t.trigger == Trigger(false, false, true, 0))
            && (var cleared := a.trigger == Some(Trigger(true, false, false, 0));
                t.bytes == (if cleared then Vol(0, 0, 0, 0, 0, 0) else s.bytes) &&
                t.bytes2 == (if cleared then Vol(0, 0, 0, 0, 0, 0) else s.bytes2))
            && t.consumed == (if a.quota.Some? then Vol(0, 0, 0, 0, 0, 0) else s.consumed)
  {}

  /** A new URR has exactly what the request that makes it gives, and zero or nothing for the rest. */
  lemma NewlyConfigured(a: UrrAttrs)
    ensures var t := Fill(FRESH, a);
            && t.volum == Or(a.volum, false) && t.period == Or(a.period, 0)
            && t.info == (if t.exhausted then Or(a.info, Info(false, false, false)).(inam := true)
                          else Or(a.info, Info(false, false, false)))
            && t.bytes == t.bytes2 == t.consumed == Vol(0, 0, 0, 0, 0, 0)
            && t.threshold == NewLimit(a.threshold) && t.quota == NewLimit(a.quota)
  {}

  function NewLimit(a: Option<LimitAttr>): (r: Limit) {
    if a.None? then Limit(false, false, false, 0, 0, 0)
    else
      var (tovol, ulvol, dlvol) := Or(a.value.flags, (false, false, false));
      Limit(tovol, ulvol, dlvol, Or(a.value.total, 0), Or(a.value.ul, 0), Or(a.value.dl, 0))
  }

  /** A packet is given up by a URR that measures volume without any reporting trigger. */
  lemma GivenUpIff(s: State, now: u32, vol: u64, volMbqe: u64, up: bool)
    ensures Count(s, now, vol, volMbqe, up).stop <==>
              !s.info.inam && s.volum && s.trigger == Trigger(false, false, false, 0)
    ensures var c := Count(s, now, vol, volMbqe, up);
            OverQuota in c.reasons || StartOfFlow in c.reasons ==> c.now.exhausted
  {
    hide Add, Reached, UsesSecond;
  }

  // ---------- the two counters and the measurement period ----------

  /** What the counters see: a volume to count or a report to make, at a second of time. */
  datatype Tick = Tally(now: u32, v: u64, up: bool, mnop: bool) | Ask(now: u32)

  function Tock(s: State, t: Tick): (r: State) {
    match t
    case Tally(now, v, up, mnop) => WithCounter(s, now, false, Add(Counter(s, now, false), v, up, mnop))
    case Ask(now) => Drained(s, now)
  }

  function After(s: State, ts: seq<Tick>): (r: State) {
    if ts == [] then s else Tock(After(s, ts[..|ts| - 1]), ts[|ts| - 1])
  }

  /** Volume counted in period k. */
  function SumIn(p: u32, ts: seq<Tick>, k: int, up: bool): (r: nat)
    requires p != 0
  {
    if ts == [] then 0
    else
      var t := ts[|ts| - 1];
      SumIn(p, ts[..|ts| - 1], k, up) + if t.Tally? && t.now / p == k && t.up == up then t.v else 0
  }

  predicate AskedIn(p: u32, ts: seq<Tick>, k: int)
    requires p != 0
  {
    ts != [] && ((ts[|ts| - 1].Ask? && ts[|ts| - 1].now / p == k) || AskedIn(p, ts[..|ts| - 1], k))
  }

  /** Time does not go back, and no period is left without a report in it. */
  predicate Disciplined(p: u32, ts: seq<Tick>)
    requires p != 0
  {
    |ts| <= 1 ||
    var k, k' := ts[|ts| - 2].now / p, ts[|ts| - 1].now / p;
    && Disciplined(p, ts[..|ts| - 1])
    && (k' == k || (k' == k + 1 && AskedIn(p, ts[..|ts| - 1], k)))
  }

  lemma {:induction false} NothingLater(p: u32, ts: seq<Tick>, k: int, up: bool)
    requires p != 0 && ts != [] && Disciplined(p, ts) && k > ts[|ts| - 1].now / p
    ensures SumIn(p, ts, k, up) == 0 && !AskedIn(p, ts, k)
  {
    if |ts| > 1 { NothingLater(p, ts[..|ts| - 1], k, up); }
    else { assert ts[..0] == []; }
  }

  lemma PlusOfRemainder(sum: nat, v: u64)
    ensures Plus(sum % TWO64, v) == (sum + v) % TWO64
  {}

  lemma {:induction false} AfterKeepsPeriod(s: State, ts: seq<Tick>)
    ensures After(s, ts).period == s.period
  {
    if ts == [] {
    } else {
      AfterKeepsPeriod(s, ts[..|ts| - 1]);
    }
  }

  /** At any time the current counter holds this period's volume, and the previous one holds
      last period's until a report has taken it. */
  lemma {:induction false} CountersByPeriod(s: State, ts: seq<Tick>, up: bool)
    requires s.period != 0 && s.bytes == s.bytes2 == ZERO
    requires ts != [] && Disciplined(s.period, ts)
    ensures var p, now := s.period, ts[|ts| - 1].now;
            && Counter(After(s, ts), now, false).Dir(up) == SumIn(p, ts, now / p, up) % TWO64
            && Counter(After(s, ts), now, true).Dir(up) ==
               if AskedIn(p, ts, now / p) then 0 else SumIn(p, ts, now / p - 1, up) % TWO64
    decreases |ts|, 1
  {
    hide Counter, Tock, Disciplined;
    var p, ts', t := s.period, ts[..|ts| - 1], ts[|ts| - 1];
    AfterKeepsPeriod(s, ts');
    CountersBefore(s, ts, up);
    TockCounters(After(s, ts'), t, up);
    if t.Tally? && t.up == up {
      PlusOfRemainder(SumIn(p, ts', t.now / p, up), t.v);
    }
  }

  /** A tick fills the current counter or empties the previous one. */
  lemma TockCounters(c: State, t: Tick, up: bool)
    requires c.period != 0
    ensures var d := Tock(c, t);
            && Counter(d, t.now, false).Dir(up) ==
               Plus(Counter(c, t.now, false).Dir(up), if t.Tally? && t.up == up then t.v else 0)
            && Counter(d, t.now, true).Dir(up) == if t.Ask? then 0 else Counter(c, t.now, true).Dir(up)
  {}

  /** From one period to the next the counters change roles. */
  lemma CounterRoles(c: State, now: u32, later: u32, previous: bool)
    requires c.period != 0
    ensures later / c.period == now / c.period ==> Counter(c, later, previous) == Counter(c, now, previous)
    ensures later / c.period == now / c.period + 1 ==> Counter(c, later, previous) == Counter(c, now, !previous)
  {}

  /** The same just before the last tick, seen from the last tick's period. */
  lemma {:induction false} CountersBefore(s: State, ts: seq<Tick>, up: bool)
    requires s.period != 0 && s.bytes == s.bytes2 == ZERO
    requires ts != [] && Disciplined(s.period, ts)
    ensures var p, now, ts' := s.period, ts[|ts| - 1].now, ts[..|ts| - 1];
            && Counter(After(s, ts'), now, false).Dir(up) == SumIn(p, ts', now / p, up) % TWO64
            && Counter(After(s, ts'), now, true).Dir(up) ==
               if AskedIn(p, ts', now / p) then 0 else SumIn(p, ts', now / p - 1, up) % TWO64
    decreases |ts|, 0
  {
    var p, ts' := s.period, ts[..|ts| - 1];
    if ts' == [] {
    } else {
      hide Counter, After;
      CountersByPeriod(s, ts', up);
      AfterKeepsPeriod(s, ts');
      CounterRoles(After(s, ts'), ts'[|ts'| - 1].now, ts[|ts| - 1].now, false);
      CounterRoles(After(s, ts'), ts'[|ts'| - 1].now, ts[|ts| - 1].now, true);
      var k, k' := ts'[|ts'| - 1].now / p, ts[|ts| - 1].now / p;
      if k' == k + 1 { NothingLater(p, ts', k', up); }
    }
  }

  /** The first report in a period carries exactly the volume of the period before it, in
      each direction; later reports in the same period carry nothing. */
  lemma ReportsByPeriod(s: State, ts: seq<Tick>, up: bool)
    requires s.period != 0 && s.bytes == s.bytes2 == ZERO
    requires ts != [] && ts[|ts| - 1].Ask? && Disciplined(s.period, ts)
    ensures var p, now, ts' := s.period, ts[|ts| - 1].now, ts[..|ts| - 1];
            Counter(After(s, ts'), now, true).Dir(up) ==
            if AskedIn(p, ts', now / p) then 0 else SumIn(p, ts', now / p - 1, up) % TWO64
  {
    CountersBefore(s, ts, up);
  }

  /** How a packet or a query looks to the counters. */
  function Asks(now: u32, n: nat): (r: seq<Tick>) { if n == 0 then [] else Asks(now, n - 1) + [Ask(now)] }

  function TicksOf(s: State, e: Event): (r: seq<Tick>) {
    match e
    case Packet(now, vol, volMbqe, up, completes) =>
      if volMbqe == 0 then []
      else
        var c := Count(s, now, vol, volMbqe, up);
        (if Measures(s, up) then [Tally(now, Measured(s, vol, volMbqe), up, s.info.mnop)] else [])
        + if completes && !c.stop then Asks(now, |c.reasons|) else []
    case Query(now) => [Ask(now)]
    case Config(a) => []
  }

  /** The reports the asking ticks get. */
  function Answers(s: State, ts: seq<Tick>): (r: seq<Vol>) {
    if ts == [] then []
    else
      var ts', t := ts[..|ts| - 1], ts[|ts| - 1];
      Answers(s, ts') + if t.Ask? then [Counter(After(s, ts'), t.now, true)] else []
  }

  lemma OneMoreTick(s: State, ts: seq<Tick>, t: Tick)
    ensures After(s, ts + [t]) == Tock(After(s, ts), t)
    ensures Answers(s, ts + [t]) == Answers(s, ts) + if t.Ask? then [Counter(After(s, ts), t.now, true)] else []
  {
    assert (ts + [t])[..|ts + [t]| - 1] == ts;
  }

  lemma {:induction false} AsksAreReports(r: State, ts: seq<Tick>, s: State, now: u32, n: nat)
    requires SameCounters(After(r, ts), s)
    ensures var o := Reports(s, now, n);
            && SameCounters(After(r, ts + Asks(now, n)), o.now)
            && Answers(r, ts + Asks(now, n)) == Answers(r, ts) + o.reports
  {
    hide After, Answers, UsesSecond;
    if n == 0 {
      assert ts + Asks(now, 0) == ts;
    } else {
      AsksAreReports(r, ts, s, now, n - 1);
      assert ts + Asks(now, n) == ts + Asks(now, n - 1) + [Ask(now)];
      OneMoreTick(r, ts + Asks(now, n - 1), Ask(now));
    }
  }

  lemma TallyIsCount(r: State, ts: seq<Tick>, s: State, now: u32, vol: u64, volMbqe: u64, up: bool)
    requires SameCounters(After(r, ts), s)
    ensures var tally := if Measures(s, up) then [Tally(now, Measured(s, vol, volMbqe), up, s.info.mnop)] else [];
            && SameCounters(After(r, ts + tally), Count(s, now, vol, volMbqe, up).now)
            && Answers(r, ts + tally) == Answers(r, ts)
  {
    CountMovesCounters(s, now, vol, volMbqe, up);
    hide Add, Count, After, Answers, UsesSecond;
    if Measures(s, up) {
      OneMoreTick(r, ts, Tally(now, Measured(s, vol, volMbqe), up, s.info.mnop));
    } else {
      assert ts + [] == ts;
    }
  }

  /** What a packet comes to: perhaps a tally, then a number of reports. */
  lemma PacketParts(s: State, now: u32, vol: u64, volMbqe: u64, up: bool, completes: bool)
      returns (tally: seq<Tick>, n: nat)
    requires volMbqe != 0
    ensures tally == if Measures(s, up) then [Tally(now, Measured(s, vol, volMbqe), up, s.info.mnop)] else []
    ensures TicksOf(s, Packet(now, vol, volMbqe, up, completes)) == tally + Asks(now, n)
    ensures Step(s, Packet(now, vol, volMbqe, up, completes)) ==
              Reports(Count(s, now, vol, volMbqe, up).now, now, n)
  {
    hide Count, Measures, Measured;
    var c := Count(s, now, vol, volMbqe, up);
    tally := if Measures(s, up) then [Tally(now, Measured(s, vol, volMbqe), up, s.info.mnop)] else [];
    n := if completes && !c.stop then |c.reasons| else 0;
  }

  lemma StepIsTicks(r: State, ts: seq<Tick>, s: State, e: Event)
    requires !e.Config? && SameCounters(After(r, ts), s)
    ensures SameCounters(After(r, ts + TicksOf(s, e)), Step(s, e).now)
    ensures Answers(r, ts + TicksOf(s, e)) == Answers(r, ts) + Step(s, e).reports
  {
    hide After, Answers, Count, Reports, Measures, SameCounters;
    match e
    case Packet(now, vol, volMbqe, up, completes) =>
      if volMbqe == 0 {
        assert ts + [] == ts;
      } else {
        hide TicksOf, Step;
        var c := Count(s, now, vol, volMbqe, up);
        var tally, n := PacketParts(s, now, vol, volMbqe, up, completes);
        TallyIsCount(r, ts, s, now, vol, volMbqe, up);
        AsksAreReports(r, ts + tally, c.now, now, n);
        assert ts + (tally + Asks(now, n)) == ts + tally + Asks(now, n);
      }
    case Query(now) =>
      AsksAreReports(r, ts, s, now, 1);
      assert Asks(now, 1) == [Ask(now)];
  }

  function TicksOfRun(s: State, es: seq<Event>): (r: seq<Tick>) {
    if es == [] then []
    else TicksOfRun(s, es[..|es| - 1]) + TicksOf(Run(s, es[..|es| - 1]).now, es[|es| - 1])
  }

  /** Between reconfigurations, packets and queries move the counters, and report, exactly as
      their ticks do: the statements about ticks are statements about any such run. */
  lemma {:induction false} RunIsTicks(s: State, es: seq<Event>)
    requires forall e | e in es :: !e.Config?
    ensures SameCounters(After(s, TicksOfRun(s, es)), Run(s, es).now)
    ensures Answers(s, TicksOfRun(s, es)) == Run(s, es).reports
  {
    if es == [] {
    } else {
      var es' := es[..|es| - 1];
      RunIsTicks(s, es');
      assert es[|es| - 1] in es;
      StepIsTicks(s, TicksOfRun(s, es'), Run(s, es').now, es[|es| - 1]);
      hide After, Answers, Step, TicksOf;
    }
  }

  // ---------- periods over runs of events ----------

  /** Volume measured in period k of a run. */
  function CountedIn(s: State, es: seq<Event>, k: int, up: bool): (r: nat)
    requires s.period != 0 && forall e | e in es :: !e.Config?
  {
    if es == [] then 0
    else
      var es', e := es[..|es| - 1], es[|es| - 1];
      CountedIn(s, es', k, up) + if e.now / s.period == k then Arrived(Run(s, es').now, e, up) else 0
  }

  predicate ReportedIn(s: State, es: seq<Event>, k: int)
    requires s.period != 0 && forall e | e in es :: !e.Config?
  {
    es != [] &&
    var es', e := es[..|es| - 1], es[|es| - 1];
    ReportedIn(s, es', k) || (e.now / s.period == k && Step(Run(s, es').now, e).reports != [])
  }

  /** Time does not go back, and no period is left without a report in it. */
  predicate InOrder(s: State, es: seq<Event>)
    requires s.period != 0 && forall e | e in es :: !e.Config?
  {
    |es| <= 1 ||
    var es', k, k' := es[..|es| - 1], es[|es| - 2].now / s.period, es[|es| - 1].now / s.period;
    InOrder(s, es') && (k' == k || (k' == k + 1 && ReportedIn(s, es', k)))
  }

  /** A tick in period k may come next. */
  predicate MayFollow(p: u32, ts: seq<Tick>, k: int)
    requires p != 0
  {
    ts == [] ||
    var last := ts[|ts| - 1].now / p;
    last == k || (last + 1 == k && AskedIn(p, ts, last))
  }

  lemma TickAdds(p: u32, ts: seq<Tick>, t: Tick, k: int, up: bool)
    requires p != 0
    ensures SumIn(p, ts + [t], k, up) ==
              SumIn(p, ts, k, up) + if t.Tally? && t.now / p == k && t.up == up then t.v else 0
    ensures AskedIn(p, ts + [t], k) <==> AskedIn(p, ts, k) || (t.Ask? && t.now / p == k)
    ensures Disciplined(p, ts) && MayFollow(p, ts, t.now / p) ==>
              Disciplined(p, ts + [t]) && MayFollow(p, ts + [t], t.now / p)
  {
    assert (ts + [t])[..|ts + [t]| - 1] == ts;
  }

  lemma {:induction false} AsksAdd(p: u32, ts: seq<Tick>, now: u32, n: nat, k: int, up: bool)
    requires p != 0
    ensures SumIn(p, ts + Asks(now, n), k, up) == SumIn(p, ts, k, up)
    ensures AskedIn(p, ts + Asks(now, n), k) <==> AskedIn(p, ts, k) || (n > 0 && now / p == k)
    ensures Disciplined(p, ts) && MayFollow(p, ts, now / p) ==>
              Disciplined(p, ts + Asks(now, n)) && MayFollow(p, ts + Asks(now, n), now / p)
  {
    hide SumIn, AskedIn, Disciplined, MayFollow;
    if n == 0 {
      assert ts + Asks(now, 0) == ts;
    } else {
      AsksAdd(p, ts, now, n - 1, k, up);
      assert ts + Asks(now, n) == ts + Asks(now, n - 1) + [Ask(now)];
      TickAdds(p, ts + Asks(now, n - 1), Ask(now), k, up);
    }
  }

  lemma {:induction false} ReportsCount(s: State, now: u32, n: nat)
    ensures |Reports(s, now, n).reports| == n
  {
    if n == 0 {
    } else {
      ReportsCount(s, now, n - 1);
    }
  }

  /** What the ticks of one event add. */
  lemma EventAdds(p: u32, ts: seq<Tick>, s: State, e: Event, k: int, up: bool)
    requires p != 0 && !e.Config?
    ensures var us := ts + TicksOf(s, e);
            && SumIn(p, us, k, up) == SumIn(p, ts, k, up) + (if e.now / p == k then Arrived(s, e, up) else 0)
            && (AskedIn(p, us, k) <==> AskedIn(p, ts, k) || (e.now / p == k && Step(s, e).reports != []))
            && (Disciplined(p, ts) && MayFollow(p, ts, e.now / p) ==>
                  Disciplined(p, us) && MayFollow(p, us, e.now / p))
  {
    hide SumIn, AskedIn, Disciplined, MayFollow, Count, Reports, Measures, Measured;
    match e
    case Packet(now, vol, volMbqe, pktUp, completes) =>
      if volMbqe == 0 {
        assert ts + [] == ts;
      } else {
        hide TicksOf, Step;
        var tally, n := PacketParts(s, now, vol, volMbqe, pktUp, completes);
        if tally == [] {
          assert ts + tally == ts;
        } else {
          TickAdds(p, ts, tally[0], k, up);
        }
        AsksAdd(p, ts + tally, now, n, k, up);
        ReportsCount(Count(s, now, vol, volMbqe, pktUp).now, now, n);
        assert ts + (tally + Asks(now, n)) == ts + tally + Asks(now, n);
      }
    case Query(now) =>
      TickAdds(p, ts, Ask(now), k, up);
      ReportsCount(s, now, 1);
  }

  /** The ticks of a run have its volumes and reports, period by period, and its order. */
  lemma {:induction false} RunAdds(s: State, es: seq<Event>, k: int, up: bool)
    requires s.period != 0 && forall e | e in es :: !e.Config?
    ensures var ts := TicksOfRun(s, es);
            && SumIn(s.period, ts, k, up) == CountedIn(s, es, k, up)
            && (AskedIn(s.period, ts, k) <==> ReportedIn(s, es, k))
  {
    hide SumIn, AskedIn, TicksOf, Arrived, Step;
    if es == [] {
      NoTicks(s.period, k, up);
    } else {
      var es', e := es[..|es| - 1], es[|es| - 1];
      assert e in es && forall x | x in es' :: x in es;
      RunAdds(s, es', k, up);
      EventAdds(s.period, TicksOfRun(s, es'), Run(s, es').now, e, k, up);
    }
  }

  lemma NoTicks(p: u32, k: int, up: bool)
    requires p != 0
    ensures SumIn(p, [], k, up) == 0 && !AskedIn(p, [], k) && Disciplined(p, []) && MayFollow(p, [], k)
  {}

  lemma {:induction false} RunInOrder(s: State, es: seq<Event>)
    requires s.period != 0 && (forall e | e in es :: !e.Config?) && InOrder(s, es)
    ensures var ts := TicksOfRun(s, es);
            Disciplined(s.period, ts) && (es != [] ==> MayFollow(s.period, ts, es[|es| - 1].now / s.period))
  {
    hide SumIn, Disciplined, MayFollow, TicksOf, Step, Run;
    if es == [] {
      NoTicks(s.period, 0, true);
    } else {
      var p, es', e := s.period, es[..|es| - 1], es[|es| - 1];
      assert e in es && forall x | x in es' :: x in es;
      RunInOrder(s, es');
      var ts, k' := TicksOfRun(s, es'), e.now / p;
      if es' == [] {
        NoTicks(p, k', true);
      } else {
        var k := es'[|es'| - 1].now / p;
        RunAdds(s, es', k, true);
        if k' == k + 1 { NextPeriod(p, ts, k); }
      }
      EventAdds(p, ts, Run(s, es').now, e, k', true);
    }
  }

  lemma NextPeriod(p: u32, ts: seq<Tick>, k: int)
    requires p != 0 && Disciplined(p, ts) && MayFollow(p, ts, k) && AskedIn(p, ts, k)
    ensures MayFollow(p, ts, k + 1)
  {
    if ts[|ts| - 1].now / p < k { NothingLater(p, ts, k, true); }
  }

  /** A query that ends a run reports, in each direction, the volume measured in the period
      before its own if it is the first report of its period, and nothing otherwise. */
  lemma PeriodReport(s: State, es: seq<Event>, now: u32, up: bool)
    requires s.period != 0 && s.bytes == s.bytes2 == ZERO
    requires (forall e | e in es :: !e.Config?) && InOrder(s, es + [Query(now)])
    ensures var reports, k := Run(s, es + [Query(now)]).reports, now / s.period;
            && |reports| == |Run(s, es).reports| + 1 && reports[..|reports| - 1] == Run(s, es).reports
            && reports[|reports| - 1].Dir(up) ==
               if ReportedIn(s, es, k) then 0 else CountedIn(s, es, k - 1, up) % TWO64
  {
    hide SumIn, AskedIn, Disciplined, CountedIn, ReportedIn, After, Counter, Arrived;
    var all, k, ts := es + [Query(now)], now / s.period, TicksOfRun(s, es);
    assert all[..|all| - 1] == es;
    RunInOrder(s, all);
    assert TicksOfRun(s, all) == ts + [Ask(now)];
    assert (ts + [Ask(now)])[..|ts|] == ts;
    RunIsTicks(s, es);
    ReportsByPeriod(s, ts + [Ask(now)], up);
    RunAdds(s, es, k, up);
    RunAdds(s, es, k - 1, up);
    LastQuery(s, es, now);
    CounterOf(After(s, ts), Run(s, es).now, now);
  }

  lemma CounterOf(a: State, b: State, now: u32)
    requires SameCounters(a, b)
    ensures Counter(a, now, true) == Counter(b, now, true)
  {}

  lemma LastQuery(s: State, es: seq<Event>, now: u32)
    ensures Run(s, es + [Query(now)]).reports == Run(s, es).reports + [Counter(Run(s, es).now, now, true)]
  {
    assert (es + [Query(now)])[..|es + [Query(now)]| - 1] == es;
    var t := Run(s, es).now;
    assert Reports(t, now, 1).reports == Reports(t, now, 0).reports + [Counter(t, now, true)];
  }

  // ---------- the length of the report list ----------

  /** One URR gives at most two reports for a packet, and two, one more than the slot the list
      has for it, exactly when the packet reaches both its threshold and its quota. */
  lemma TwoReportsIff(s: State, now: u32, vol: u64, volMbqe: u64, up: bool)
    ensures var v := Measured(s, vol, volMbqe);
            var n := |Count(s, now, vol, volMbqe, up).reasons|;
            n <= 2 &&
            (n == 2 <==> Measures(s, up) && v != 0 && s.trigger.volth && s.trigger.volqu
                         && Reached(Add(Counter(s, now, false), v, up, s.info.mnop), s.threshold)
                         && Reached(Add(s.consumed, v, up, s.info.mnop), s.quota))
  {
    hide Reached, Add, UsesSecond;
  }

  const BOTH: Trigger := Trigger(false, true, true, 0)
  const ONE_BYTE: LimitAttr := LimitAttr(Some((true, false, false)), Some(1), None, None)

  /** A URR with a threshold and a quota of one byte. */
  const TIGHT: UrrAttrs := UrrAttrs(Some(true), Some(BOTH), None, None, Some(ONE_BYTE), Some(ONE_BYTE))

  /** A run that gets there: configure, and count one byte. */
  lemma TwoReportsReached()
    ensures |Run(FRESH, [Config(TIGHT), Packet(0, 1, 1, true, true)]).reports| == 2
  {
    var es := [Config(TIGHT), Packet(0, 1, 1, true, true)];
    assert es[..1] == [es[0]] && es[..1][..0] == [];
    var s := Fill(FRESH, TIGHT);
    assert Run(FRESH, es[..1]).now == s && Run(FRESH, es[..1]).reports == [];
    assert s.quota == s.threshold == Limit(true, false, false, 1, 0, 0) && s.trigger == BOTH && !s.info.inam;
    assert Reached(Add(ZERO, 1, true, false), s.quota);
    ReportsCount(Count(s, 0, 1, 1, true).now, 0, 2);
  }

  /** How many entries the URRs of a PDR put in the list, one after the other; one without any
      trigger gives the packet up, and an id without a URR is passed over. */
  function Entries(urrs: seq<Option<State>>, now: u32, vol: u64, volMbqe: u64, up: bool): (n: nat)
    ensures n <= 2 * |urrs|
  {
    if urrs == [] then 0
    else match urrs[0]
      case None => Entries(urrs[1..], now, vol, volMbqe, up)
      case Some(s) =>
        var c := Count(s, now, vol, volMbqe, up);
        TwoReportsIff(s, now, vol, volMbqe, up);
        if c.stop then 0 else |c.reasons| + Entries(urrs[1..], now, vol, volMbqe, up)
  }

  /** Of the ids before the packet is given up: those whose URR gives as many entries as asked. */
  function Giving(n: nat, urrs: seq<Option<State>>, now: u32, vol: u64, volMbqe: u64, up: bool): (r: nat) {
    if urrs == [] then 0
    else match urrs[0]
      case None => Giving(n, urrs[1..], now, vol, volMbqe, up)
      case Some(s) =>
        var c := Count(s, now, vol, volMbqe, up);
        if c.stop then 0
        else (if |c.reasons| == n then 1 else 0) + Giving(n, urrs[1..], now, vol, volMbqe, up)
  }

  /** The list, with one slot per id, is overrun exactly when the URRs that give two entries are
      more than the ids that give none. */
  lemma OverrunIff(urrs: seq<Option<State>>, now: u32, vol: u64, volMbqe: u64, up: bool)
    ensures var one, two := Giving(1, urrs, now, vol, volMbqe, up), Giving(2, urrs, now, vol, volMbqe, up);
            Entries(urrs, now, vol, volMbqe, up) > |urrs| <==> two > |urrs| - one - two
  {
    EntriesByKind(urrs, now, vol, volMbqe, up);
  }

  lemma {:induction false} EntriesByKind(urrs: seq<Option<State>>, now: u32, vol: u64, volMbqe: u64, up: bool)
    ensures Entries(urrs, now, vol, volMbqe, up) ==
              Giving(1, urrs, now, vol, volMbqe, up) + 2 * Giving(2, urrs, now, vol, volMbqe, up)
  {
    hide Count;
    if urrs == [] {
    } else {
      EntriesByKind(urrs[1..], now, vol, volMbqe, up);
      if urrs[0].Some? { TwoReportsIff(urrs[0].value, now, vol, volMbqe, up); }
    }
  }
}
