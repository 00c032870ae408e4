/** A URR without a measurement period has one counter: each report carries what was measured
    since the one before. And what a report asked for by the volume threshold carries. */
module NoPeriod {
  import opened Types
  import opened Usage

  lemma {:induction false} AllFromFirst(s: State, now: u32, n: nat)
    requires s.period == 0 && n > 0
    ensures var o := Reports(s, now, n);
            && |o.reports| == n && o.reports[0] == s.bytes
            && (forall i | 0 < i < n :: o.reports[i] == ZERO)
            && o.now == s.(bytes := ZERO)
  {
    var before := Reports(s, now, n - 1);
    if n == 1 {
      assert before == Outcome(s, []);
    } else {
      AllFromFirst(s, now, n - 1);
    }
  }

  lemma CountedPlainly(s: State, now: u32, vol: u64, volMbqe: u64, pktUp: bool, up: bool)
    requires s.period == 0
    ensures var t := Count(s, now, vol, volMbqe, pktUp).now;
            && t.period == 0 && t.bytes2 == s.bytes2
            && t.bytes.Dir(up) == Plus(s.bytes.Dir(up), if Measures(s, pktUp) && pktUp == up
                                                         then Measured(s, vol, volMbqe) else 0)
  {
    CountMovesCounters(s, now, vol, volMbqe, pktUp);
    hide Count, Measures, Measured;
  }

  /** One event: the volume it brings is either kept, or reported at once with all that was kept. */
  lemma EventPlainly(s: State, e: Event, up: bool, kept: nat)
    requires s.period == 0 && s.bytes2 == ZERO && !e.Config?
    requires s.bytes.Dir(up) == kept % 0x1_0000_0000_0000_0000
    ensures var o := Step(s, e);
            var all := (kept + Arrived(s, e, up)) % 0x1_0000_0000_0000_0000;
            && o.now.period == 0 && o.now.bytes2 == ZERO
            && o.now.bytes.Dir(up) == (if o.reports == [] then all else 0)
            && (forall i | 0 <= i < |o.reports| :: o.reports[i].Dir(up) == if i == 0 then all else 0)
            && (e.Query? ==> |o.reports| == 1)
  {
    hide Count, Reports, Measures, Measured;
    match e
    case Packet(now, vol, volMbqe, pktUp, completes) =>
      if volMbqe != 0 {
        var c := Count(s, now, vol, volMbqe, pktUp);
        CountedPlainly(s, now, vol, volMbqe, pktUp, up);
        PlusOfRemainder(kept, Arrived(s, e, up));
        NoReports(c.now, now);
        if |c.reasons| > 0 { AllFromFirst(c.now, now, |c.reasons|); }
      }
    case Query(now) => AllFromFirst(s, now, 1);
  }

  lemma NoReports(s: State, now: u32)
    ensures Reports(s, now, 0) == Outcome(s, [])
  {}

  /** The volume measured since the last event that reported. */
  function SinceReport(s: State, es: seq<Event>, up: bool): (r: nat) {
    if es == [] then 0
    else
      var es', e := es[..|es| - 1], es[|es| - 1];
      if Step(Run(s, es').now, e).reports != [] then 0
      else SinceReport(s, es', up) + Arrived(Run(s, es').now, e, up)
  }

  lemma {:induction false} HeldSinceReport(s: State, es: seq<Event>, up: bool)
    requires s.period == 0 && s.bytes == s.bytes2 == ZERO && forall e | e in es :: !e.Config?
    ensures var t := Run(s, es).now;
            t.period == 0 && t.bytes2 == ZERO && t.bytes.Dir(up) == SinceReport(s, es, up) % 0x1_0000_0000_0000_0000
  {
    hide Step, Arrived;
    if es == [] {
    } else {
      var es', e := es[..|es| - 1], es[|es| - 1];
      assert e in es && forall x | x in es' :: x in es;
      HeldSinceReport(s, es', up);
      EventPlainly(Run(s, es').now, e, up, SinceReport(s, es', up));
    }
  }

  /** Without a period, after any run of packets and queries from empty counters, the first report
      of the next event carries, per direction, exactly the volume measured since the report before
      (modulo 2^64), that event's own included; further reports of the event carry nothing, and
      nothing is left to report. */
  lemma ReportsSinceLast(s: State, es: seq<Event>, e: Event, up: bool)
    requires s.period == 0 && s.bytes == s.bytes2 == ZERO && !e.Config? && forall x | x in es :: !x.Config?
    ensures var t := Run(s, es).now;
            var o := Step(t, e);
            && (e.Query? ==> |o.reports| == 1)
            && (forall i | 0 <= i < |o.reports| :: o.reports[i].Dir(up) ==
                  if i == 0 then (SinceReport(s, es, up) + Arrived(t, e, up)) % 0x1_0000_0000_0000_0000 else 0)
            && (o.reports != [] ==> Held(o.now, up) == 0)
  {
    hide Step, Run, Arrived, SinceReport;
    HeldSinceReport(s, es, up);
    EventPlainly(Run(s, es).now, e, up, SinceReport(s, es, up));
  }

  /** What the packet path says of a volume that has reached a limit, part by part. */
  predicate AtLeast(m: Vol, limit: Limit) {
    || (limit.tovol && 0 < limit.total <= m.total)
    || (limit.ulvol && 0 < limit.ul <= m.ul)
    || (limit.dlvol && 0 < limit.dl <= m.dl)
  }

  /** The first report a packet causes by its threshold shows the limit reached exactly when the URR
      has no period, or what the counter of the period before holds reaches the limit by itself:
      with a period the volume that caused the report is not in it. */
  lemma ThresholdReportIff(s: State, now: u32, vol: u64, volMbqe: u64, up: bool)
    requires volMbqe != 0 && OverThreshold in Count(s, now, vol, volMbqe, up).reasons
    ensures var reports := Step(s, Packet(now, vol, volMbqe, up, true)).reports;
            && reports != []
            && (AtLeast(reports[0], s.threshold) <==>
                  s.period == 0 || AtLeast(if now / s.period % 2 == 1 then s.bytes else s.bytes2, s.threshold))
  {
    hide Count, Reports, AtLeast;
    var c := Count(s, now, vol, volMbqe, up);
    assert !c.stop && c.reasons != [] by { StopsEmpty(s, now, vol, volMbqe, up); }
    FirstReport(c.now, now, |c.reasons|);
    PreviousUntouched(s, now, vol, volMbqe, up);
  }

  lemma StopsEmpty(s: State, now: u32, vol: u64, volMbqe: u64, up: bool)
    ensures Count(s, now, vol, volMbqe, up).stop ==> Count(s, now, vol, volMbqe, up).reasons == []
  {
    hide Add, Reached, Counter, WithCounter, Exhaust;
  }

  /** Counting a packet leaves the counter that reports read alone, unless it is the only one; that
      one has reached the threshold if the threshold asks for a report. */
  lemma PreviousUntouched(s: State, now: u32, vol: u64, volMbqe: u64, up: bool)
    ensures var c := Count(s, now, vol, volMbqe, up);
            && (s.period != 0 ==> Counter(c.now, now, true) == if now / s.period % 2 == 1 then s.bytes else s.bytes2)
            && (s.period == 0 && OverThreshold in c.reasons ==> AtLeast(Counter(c.now, now, true), s.threshold))
  {
    hide Add;
    CountMovesCounters(s, now, vol, volMbqe, up);
  }

  lemma {:induction false} FirstReport(s: State, now: u32, n: nat)
    requires n > 0
    ensures |Reports(s, now, n).reports| == n && Reports(s, now, n).reports[0] == Counter(s, now, true)
  {
    hide Counter, Drained;
    if n == 1 {
      NoReports(s, now);
    } else {
      FirstReport(s, now, n - 1);
    }
  }

  const THRESHOLD_1000: LimitAttr := LimitAttr(Some((true, false, false)), Some(1000), None, None)

  /** With a total threshold of 1000 bytes, a first packet of 1500 is reported as 1500 without a
      period and as nothing with one. */
  lemma ThresholdReportExample(period: u32)
    ensures var a := UrrAttrs(Some(true), Some(Trigger(false, true, false, 0)), Some(period), None,
                              Some(THRESHOLD_1000), None);
            var reports := Run(FRESH, [Config(a), Packet(0, 1500, 1500, true, true)]).reports;
            |reports| == 1 && reports[0].total == if period == 0 then 1500 else 0
  {
    var a := UrrAttrs(Some(true), Some(Trigger(false, true, false, 0)), Some(period), None,
                      Some(THRESHOLD_1000), None);
    var es := [Config(a), Packet(0, 1500, 1500, true, true)];
    assert es[..1] == [es[0]] && es[..1][..0] == [];
    var s := Fill(FRESH, a);
    assert Run(FRESH, es[..1]).now == s && Run(FRESH, es[..1]).reports == [];
    var c := Count(s, 0, 1500, 1500, true);
    assert s.threshold == Limit(true, false, false, 1000, 0, 0) && c.reasons == [OverThreshold];
    FirstReport(c.now, 0, 1);
  }
}
