/** The token-bucket policer of a QER (trTCM.c): one rate, a committed bucket that overflows
    into an excess bucket, and time carried over in nanoseconds; and the bit rate it is
    given (genl_qer.c). */
module Policer {
  import opened Types

  const NS: int := 1_000_000_000
  const MTU: int := 1500

  // ---------- the configured rate ----------

  /** concat_bit_rate: the shift is done in 32 bits. */
  function ConcatBitRate(high: u32, low: u8): (r: u32) { high as int * 256 % 0x1_0000_0000 + low as int }

  /** The rate is the 40-bit value the two parts spell exactly when that value fits 32 bits. */
  lemma BitRateExactIff(high: u32, low: u8)
    ensures ConcatBitRate(high, low) as int == high as int * 256 + low as int <==> high < 0x100_0000
  {}

  // ---------- exact arithmetic ----------

  datatype Bucket = Bucket(rate: nat, cbs: nat, ebs: nat, tc: nat, te: nat, carry: nat)

  datatype Color = Green | Yellow | Red

  datatype Verdict = Verdict(after: Bucket, color: Color, refilled: nat, spilled: nat)

  function Min(a: int, b: int): (r: int) { if a < b then a else b }

  function Refilled(rate: nat, time: nat): (r: nat) { rate * time / NS }

  /** The time that stays uncredited; the division rounds it up in the flow's favour. */
  function CarryLeft(rate: nat, time: nat): (r: int) {
    var n := Refilled(rate, time);
    if n > 0 && rate > 0 then time - n * NS / rate else time
  }

  /** One packet of the given length after the given gap, without any machine limits. A packet
      is admitted against the tokens held before the refill. */
  function Police(b: Bucket, gap: nat, len: nat): (r: Verdict)
    requires b.tc <= b.cbs && b.te <= b.ebs
  {
    var time := b.carry + gap;
    var n := Refilled(b.rate, time);
    CarryNonNegative(b.rate, time);
    var carry := CarryLeft(b.rate, time);
    var tc := Min(b.tc + n, b.cbs);
    var over := b.tc + n - tc;
    var te := Min(b.te + over, b.ebs);
    var spilled := b.te + over - te;
    if b.tc >= len then Verdict(b.(tc := tc - len, te := te, carry := carry), Green, n, spilled)
    else if b.te >= len then Verdict(b.(tc := tc, te := te - len, carry := carry), Yellow, n, spilled)
    else Verdict(b.(tc := tc, te := te, carry := carry), Red, n, spilled)
  }

  lemma CarryNonNegative(rate: nat, time: nat)
    ensures CarryLeft(rate, time) >= 0
  {
    var n := Refilled(rate, time);
    if n > 0 && rate > 0 {
      assert n * NS <= rate * time;
      QuotientBound(n * NS, rate, time);
    }
  }

  lemma QuotientBound(x: nat, r: nat, t: nat)
    requires r > 0 && x <= r * t
    ensures x / r <= t
  {
    var q := x / r;
    assert r * q <= x;
    if q > t { MulMono(r, t + 1, q); }
  }

  lemma MulMono(r: nat, a: nat, b: nat)
    requires a <= b
    ensures r * a <= r * b
  {}

  /** The most that rounding can cost in one refill. */
  function Rounding(rate: nat): (r: nat) { if rate > 0 then rate - 1 else 0 }

  /** What rounding costs in one refill. */
  function Slack(rate: nat, time: nat): (r: nat) {
    if rate > 0 then Refilled(rate, time) * NS % rate else 0
  }

  /** Credited time plus carried time is the time that passed, up to the rounding slack. */
  lemma RefillExact(rate: nat, time: nat)
    ensures Refilled(rate, time) * NS + rate * CarryLeft(rate, time) == rate * time + Slack(rate, time)
    ensures rate * CarryLeft(rate, time) < NS + rate && Slack(rate, time) <= Rounding(rate)
  {
    if rate == 0 {
      assert 0 * time == 0 && 0 * CarryLeft(0, time) == 0;
    } else {
      var n := Refilled(rate, time);
      var x := n * NS;
      var q := x / rate;
      assert x == rate * q + x % rate;
      if n > 0 {
        assert rate * (time - q) == rate * time - rate * q;
      } else {
        assert x == 0;
      }
      assert rate * time - x < NS;
    }
  }

  // ---------- runs ----------

  datatype Arrival = Arrival(gap: nat, len: nat)

  ghost predicate Fair(b: Bucket) {
    b.tc <= b.cbs && b.te <= b.ebs && b.rate * b.carry < NS + b.rate
  }

  datatype Tally = Tally(after: Bucket, admitted: nat, refilled: nat, spilled: nat, elapsed: nat, slack: nat)

  lemma PoliceFair(b: Bucket, gap: nat, len: nat)
    requires Fair(b)
    ensures Fair(Police(b, gap, len).after)
    ensures Police(b, gap, len).after.(tc := b.tc, te := b.te, carry := b.carry) == b
  {
    RefillExact(b.rate, b.carry + gap);
  }

  function Admitted(v: Verdict, len: nat): (r: nat) { if v.color == Red then 0 else len }

  function Run(b: Bucket, arrivals: seq<Arrival>): (t: Tally)
    requires Fair(b)
    ensures Fair(t.after) && t.after.(tc := b.tc, te := b.te, carry := b.carry) == b
  {
    if arrivals == [] then Tally(b, 0, 0, 0, 0, 0)
    else
      var t := Run(b, arrivals[..|arrivals| - 1]);
      var a := arrivals[|arrivals| - 1];
      var v := Police(t.after, a.gap, a.len);
      PoliceFair(t.after, a.gap, a.len);
      Tally(v.after, t.admitted + Admitted(v, a.len), t.refilled + v.refilled, t.spilled + v.spilled,
            t.elapsed + a.gap, t.slack + Slack(b.rate, t.after.carry + a.gap))
  }

  lemma PoliceConserves(b: Bucket, gap: nat, len: nat)
    requires Fair(b)
    ensures var v := Police(b, gap, len);
            Admitted(v, len) + v.after.tc + v.after.te + v.spilled == b.tc + b.te + v.refilled
  {}

  /** Bytes let through, tokens left and tokens spilled add up to what was there and what was
      refilled. */
  lemma {:induction false} TokensConserved(b: Bucket, arrivals: seq<Arrival>)
    requires Fair(b)
    ensures var t := Run(b, arrivals);
            t.admitted + t.after.tc + t.after.te + t.spilled == b.tc + b.te + t.refilled
  {
    if arrivals == [] {
    } else {
      TokensConserved(b, arrivals[..|arrivals| - 1]);
      var a, t := arrivals[|arrivals| - 1], Run(b, arrivals[..|arrivals| - 1]);
      PoliceConserves(t.after, a.gap, a.len);
      hide Police;
    }
  }

  lemma TimeStep(b: Bucket, a: Arrival)
    requires Fair(b)
    ensures var v := Police(b, a.gap, a.len); var slack := Slack(b.rate, b.carry + a.gap);
            && v.refilled * NS + b.rate * v.after.carry == b.rate * b.carry + b.rate * a.gap + slack
            && slack <= Rounding(b.rate)
  {
    RefillExact(b.rate, b.carry + a.gap);
    hide Refilled, CarryLeft, Slack, Fair, Rounding;
    TimeSums(b.rate, b.carry, a.gap, 1);
  }

  lemma TimeSums(rate: nat, time: nat, gap: nat, n: nat)
    requires n > 0
    ensures rate * (time + gap) == rate * time + rate * gap
    ensures n * Rounding(rate) == (n - 1) * Rounding(rate) + Rounding(rate)
  {}

  /** Refilled and carried time make up the time passed, but for a slack of less than the rate
      for each of n packets. */
  ghost predicate Accounted(b: Bucket, t: Tally, n: nat) {
    && t.refilled * NS + b.rate * t.after.carry == b.rate * (t.elapsed + b.carry) + t.slack
    && t.slack <= n * Rounding(b.rate)
  }

  /** Time is accounted for over any run. */
  lemma {:induction false} TimeAccounted(b: Bucket, arrivals: seq<Arrival>)
    requires Fair(b)
    ensures Accounted(b, Run(b, arrivals), |arrivals|)
  {
    if arrivals == [] {
      assert b.rate * (0 + b.carry) == b.rate * b.carry;
    } else {
      TimeAccounted(b, arrivals[..|arrivals| - 1]);
      var a, t, u := arrivals[|arrivals| - 1], Run(b, arrivals[..|arrivals| - 1]), Run(b, arrivals);
      AccountedStep(b, t, u, a, |arrivals|);
    }
  }

  lemma AccountedStep(b: Bucket, t: Tally, u: Tally, a: Arrival, n: nat)
    requires n > 0 && t.after.rate == b.rate && Fair(t.after) && Accounted(b, t, n - 1)
    requires var v := Police(t.after, a.gap, a.len);
             u.refilled == t.refilled + v.refilled && u.after.carry == v.after.carry
             && u.elapsed == t.elapsed + a.gap && u.slack == t.slack + Slack(b.rate, t.after.carry + a.gap)
    ensures Accounted(b, u, n)
  {
    hide Police, Slack, Fair, Rounding;
    TimeStep(t.after, a);
    TimeSums(b.rate, t.elapsed + b.carry, a.gap, n);
    assert u.elapsed + b.carry == (t.elapsed + b.carry) + a.gap;
  }

  /** The long-run rate: in any run the bytes let through stay within the tokens at the start
      and the rate times the elapsed time, plus less than one rate unit a packet. */
  lemma RateBound(b: Bucket, arrivals: seq<Arrival>)
    requires Fair(b)
    ensures var t := Run(b, arrivals);
            t.admitted * 1_000_000_000 <= (b.tc + b.te) * 1_000_000_000 + b.rate * (t.elapsed + b.carry)
                                          + |arrivals| * if b.rate > 0 then b.rate - 1 else 0
  {
    AdmittedWithSlack(b, arrivals);
    TimeAccounted(b, arrivals);
  }

  /** The same with the slack the run really had. */
  lemma AdmittedWithSlack(b: Bucket, arrivals: seq<Arrival>)
    requires Fair(b)
    ensures var t := Run(b, arrivals);
            t.admitted * NS <= (b.tc + b.te) * NS + b.rate * (t.elapsed + b.carry) + t.slack
  {
    hide Run, Fair;
    TokensConserved(b, arrivals);
    TimeAccounted(b, arrivals);
    var t := Run(b, arrivals);
    assert b.rate * t.after.carry >= 0;
    assert t.admitted <= b.tc + b.te + t.refilled;
  }

  // ---------- when the policer is an ideal bucket ----------

  /** No run lets through more than the tokens at the start and the rate times the time. */
  ghost predicate Ideal(b: Bucket)
    requires Fair(b)
  {
    forall arrivals ::
      var t := Run(b, arrivals); t.admitted * NS <= (b.tc + b.te) * NS + b.rate * (t.elapsed + b.carry)
  }

  /** The burst newTrafficPolicer allows: eight milliseconds, or one packet of the usual size. */
  function Burst(rate: nat): (r: nat) { if rate * 8 / 1000 < MTU then MTU else rate * 8 / 1000 }

  /** The rate is in bytes a second, and the burst is what it earns in eight milliseconds, but
      never less than 1500 bytes. */
  lemma RateUnits(rate: nat)
    ensures Refilled(rate, 1_000_000_000) == rate
    ensures Burst(rate) >= 1500 && Burst(rate) >= Refilled(rate, 8_000_000)
    ensures Burst(rate) == 1500 || Burst(rate) == Refilled(rate, 8_000_000)
  {}

  /** The buckets newTrafficPolicer sets up. */
  function New(rate: nat): (b: Bucket)
    ensures Fair(b)
  {
    Bucket(rate, Burst(rate), 2 * Burst(rate), Burst(rate), 2 * Burst(rate), 0)
  }

  /** One byte is a whole number of nanoseconds, or one nanosecond a whole number of bytes. */
  predicate EvenRate(rate: nat) { rate % NS == 0 || NS % rate == 0 }

  lemma EvenRateNoSlack(rate: nat, time: nat)
    requires EvenRate(rate)
    ensures Slack(rate, time) == 0
  {
    var n := Refilled(rate, time);
    if rate == 0 {
    } else if rate % NS == 0 {
      var m := rate / NS;
      assert rate * time == (m * time) * NS by { Reorder(m, NS, time); }
      assert n == m * time;
      MultipleMod(time, rate);
    } else {
      var m := NS / rate;
      assert NS == m * rate;
      assert n * NS == (n * m) * rate by { Reorder2(n, m, rate); }
      MultipleMod(n * m, rate);
    }
  }

  lemma Reorder(m: int, n: int, t: int)
    ensures (m * n) * t == (m * t) * n
  {}

  lemma Reorder2(n: int, m: int, r: int)
    ensures n * (m * r) == (n * m) * r
  {}

  lemma MultipleMod(k: nat, r: nat)
    requires r > 0
    ensures k * r % r == 0
  {
    var q, x := k * r / r, k * r % r;
    assert k * r == q * r + x;
    if k != q { Apart(k, q, r); }
  }

  lemma Apart(a: int, b: int, r: nat)
    requires a != b
    ensures a * r - b * r >= r || b * r - a * r >= r
  {
    if a > b { MulMono(r, 1, a - b); } else { MulMono(r, 1, b - a); }
    assert r * (a - b) == a * r - b * r;
  }

  lemma {:induction false} EvenRunNoSlack(b: Bucket, arrivals: seq<Arrival>)
    requires Fair(b) && EvenRate(b.rate)
    ensures Run(b, arrivals).slack == 0
  {
    if arrivals == [] {
    } else {
      EvenRunNoSlack(b, arrivals[..|arrivals| - 1]);
      EvenRateNoSlack(b.rate, Run(b, arrivals[..|arrivals| - 1]).after.carry + arrivals[|arrivals| - 1].gap);
    }
  }

  lemma EvenRateIdeal(b: Bucket)
    requires Fair(b) && EvenRate(b.rate)
    ensures Ideal(b)
  {
    forall arrivals
      ensures var t := Run(b, arrivals); t.admitted * NS <= (b.tc + b.te) * NS + b.rate * (t.elapsed + b.carry)
    {
      EvenRunNoSlack(b, arrivals);
      AdmittedWithSlack(b, arrivals);
    }
  }

  /** The shortest time that earns a byte. */
  function Period(rate: nat): (t: nat)
    requires rate > 0
    ensures t > 0
  {
    if rate < NS then (NS + rate - 1) / rate else 1
  }

  /** At any other rate that time is rounded in the flow's favour, and both buckets hold plenty
      of what it earns. */
  lemma UnevenRateSlack(rate: nat)
    requires !EvenRate(rate)
    ensures rate > 0 && Slack(rate, Period(rate)) > 0
    ensures 0 < Refilled(rate, Period(rate)) && 2 * Refilled(rate, Period(rate)) <= Burst(rate)
  {
    hide Slack, Refilled, Period, Burst;
    if rate < NS { SlowRateSlack(rate); } else { FastRateSlack(rate); }
  }

  lemma SlowRateSlack(rate: nat)
    requires 0 < rate < NS && NS % rate != 0
    ensures Refilled(rate, Period(rate)) == 1 && Slack(rate, Period(rate)) > 0 && Burst(rate) >= 2
  {
    CeilingTimes(rate, NS);
    EarnedOnce(rate, Period(rate));
    hide Period, Refilled;
  }

  lemma CeilingTimes(r: nat, x: nat)
    requires r > 0
    ensures x <= r * ((x + r - 1) / r) < x + r
  {
    var y := x + r - 1;
    assert y == r * (y / r) + y % r;
  }

  lemma EarnedOnce(rate: nat, t: nat)
    requires NS <= rate * t < 2 * NS
    ensures Refilled(rate, t) == 1
  {
    var earned := rate * t;
    assert earned / NS == 1;
  }

  lemma FastRateSlack(rate: nat)
    requires rate >= NS && rate % NS != 0
    ensures var n := Refilled(rate, Period(rate)); n > 0 && 2 * n <= Burst(rate) && Slack(rate, Period(rate)) > 0
  {
    assert rate * 1 == rate;
    var n := rate / NS;
    assert Refilled(rate, Period(rate)) == n;
    assert n * NS == rate - rate % NS;
    SmallMod(n * NS, rate);
  }

  lemma SmallMod(x: nat, r: nat)
    requires x < r
    ensures x % r == x
  {}

  /** Packets of n bytes, the first after time t and the others g apart. */
  function Steady(t: nat, g: nat, n: nat, k: nat): (r: seq<Arrival>)
    ensures |r| == k
  {
    if k == 0 then [] else Steady(t, g, n, k - 1) + [Arrival(if k == 1 then t else g, n)]
  }

  /** One packet of such a stream, against full buckets or those the packet before left. */
  lemma SteadyStep(b: Bucket, t: nat, gap: nat)
    requires var n := Refilled(b.rate, t);
             2 * n <= Burst(b.rate) && b.carry + gap == t &&
             (b.tc == Burst(b.rate) || b.tc == Burst(b.rate) - n) && b == New(b.rate).(tc := b.tc, carry := b.carry)
    ensures Fair(New(b.rate)) && var n, v := Refilled(b.rate, t), Police(b, gap, Refilled(b.rate, t));
            v.color == Green && v.after == New(b.rate).(tc := Burst(b.rate) - n, carry := CarryLeft(b.rate, t))
  {
    hide Refilled, CarryLeft, Burst;
  }

  /** Such a stream, timed so that each packet finds the same time to credit, passes for ever. */
  lemma {:induction false} SteadyPasses(rate: nat, t: nat, k: nat)
    requires rate > 0 && 2 * Refilled(rate, t) <= Burst(rate) && k > 0
    requires 0 <= CarryLeft(rate, t) <= t
    ensures var n, c := Refilled(rate, t), CarryLeft(rate, t);
            var u := Run(New(rate), Steady(t, t - c, n, k));
            && u.admitted == k * n && u.elapsed == t + (k - 1) * (t - c)
            && u.after == New(rate).(tc := Burst(rate) - n, carry := c)
  {
    hide Refilled, CarryLeft, Burst, Police, Fair, New, Slack;
    var n, c := Refilled(rate, t), CarryLeft(rate, t);
    var arrivals := Steady(t, t - c, n, k);
    assert arrivals[..k - 1] == Steady(t, t - c, n, k - 1);
    NewFields(rate);
    if k == 1 {
      assert Run(New(rate), arrivals[..0]) == Tally(New(rate), 0, 0, 0, 0, 0);
      SteadyStep(New(rate), t, t);
    } else {
      SteadyPasses(rate, t, k - 1);
      SteadyStep(Run(New(rate), arrivals[..k - 1]).after, t, t - c);
    }
    SteadySums(n, k, t - c);
  }

  lemma NewFields(rate: nat)
    ensures New(rate).rate == rate && New(rate).carry == 0 && New(rate).tc == Burst(rate)
    ensures New(rate).te == 2 * Burst(rate)
  {}

  lemma SteadySums(n: nat, k: nat, g: nat)
    requires k > 0
    ensures k * n == (k - 1) * n + n
    ensures k > 1 ==> (k - 1) * g == (k - 2) * g + g
  {}

  /** The ideal bound holds of a new policer exactly at the even rates; and then it holds from
      every state the policer can be in. */
  lemma IdealIff(rate: nat)
    ensures Ideal(New(rate)) <==> EvenRate(rate)
    ensures EvenRate(rate) ==> forall b | Fair(b) && b.rate == rate :: Ideal(b)
  {
    if EvenRate(rate) {
      forall b | Fair(b) && b.rate == rate ensures Ideal(b) { EvenRateIdeal(b); }
    } else {
      UnevenOverrun(rate);
    }
  }

  lemma UnevenOverrun(rate: nat)
    requires !EvenRate(rate)
    ensures !Ideal(New(rate))
  {
    hide Refilled, CarryLeft, Slack, Period, Burst, Run, Steady, New, Police, EvenRate;
    UnevenRateSlack(rate);
    var t := Period(rate);
    var n, c, slack := Refilled(rate, t), CarryLeft(rate, t), Slack(rate, t);
    CarryNonNegative(rate, t);
    CarryShort(rate, t);
    RefillExact(rate, t);
    NewFields(rate);
    var start := 3 * Burst(rate) * NS + rate * t;
    var k := start + 1;
    SteadyPasses(rate, t, k);
    OverrunSums(rate, t, n, c, slack, k);
    var u := Run(New(rate), Steady(t, t - c, n, k));
    assert u.admitted * NS > 3 * Burst(rate) * NS + rate * u.elapsed;
  }

  lemma CarryShort(rate: nat, time: nat)
    ensures CarryLeft(rate, time) <= time
  {}

  lemma OverrunSums(rate: nat, t: nat, n: nat, c: int, slack: nat, k: nat)
    requires n * NS + rate * c == rate * t + slack && slack > 0 && n > 0 && k > 0
    ensures k * n * NS >= rate * (t + (k - 1) * (t - c)) - rate * t + NS + (k - 1)
  {
    assert rate * (t - c) == n * NS - slack;
    assert rate * (t + (k - 1) * (t - c)) == rate * t + (k - 1) * (rate * (t - c));
    assert (k - 1) * (n * NS - slack) == (k - 1) * n * NS - (k - 1) * slack;
    assert k * n * NS == (k - 1) * n * NS + n * NS;
    MulMono(k - 1, 1, slack);
  }

  /** At 4.8 Gbit/s, an ordinary rate, the bound fails. */
  lemma IdealBoundFails()
    ensures !Ideal(New(600_000_000))
  {
    IdealIff(600_000_000);
  }

  // ---------- the object ----------

  function U64(x: int): (r: u64) { x % TWO64 }

  class TrafficPolicer {
    var cbs: u64
    var ebs: u64
    var tc: u64
    var te: u64
    var byteRate: u64
    var lastUpdate: u64
    var refillTokenTime: u64

    ghost function Tokens(): (b: Bucket)
      reads this
    {
      Bucket(byteRate, cbs, ebs, tc, te, refillTokenTime)
    }

    /** What newTrafficPolicer sets up and policePacket keeps. */
    ghost predicate Valid()
      reads this
    {
      && byteRate as int < 0x1_0000_0000 * 125
      && cbs as int == Burst(byteRate) && ebs as int == 2 * cbs as int
      && Fair(Tokens())
    }

    constructor (kbitRate: u32, now: u64)
      ensures Valid() && byteRate as int == kbitRate as int * 125 && lastUpdate == now
      ensures Tokens() == New(byteRate)
    {
      byteRate := kbitRate as int * 125;
      var burst: u64 := kbitRate as int * 125 * 8 / 1000;
      if burst as int < MTU { burst := MTU; }
      cbs := burst;
      ebs := burst as int * 2;
      tc := burst;
      te := burst as int * 2;
      lastUpdate := now;
      refillTokenTime := 0;
    }

    /** The clock has not gone back, and rate times gap leaves room for one rate unit and one
        second in 64 bits; at rate zero, where time is only ever carried, the carried time fits. */
    ghost predicate InRange(now: u64)
      reads this
    {
      lastUpdate <= now && RoomFor(byteRate, refillTokenTime, now as int - lastUpdate as int)
    }

    /** The first part of policePacket: turns the time since the last refill into tokens. */
    method Credit(now: u64) returns (refillTokens: u64)
      requires Valid()
      modifies this`lastUpdate, this`refillTokenTime
      ensures lastUpdate == now
      ensures old(InRange(now)) ==>
                var time := old(refillTokenTime) as int + (now as int - old(lastUpdate) as int);
                && refillTokens as int == Refilled(byteRate, time) <= TWO64 / NS
                && refillTokenTime as int == CarryLeft(byteRate, time)
    {
      ghost var gap: int, fine := now as int - lastUpdate as int, InRange(now);
      ghost var time := refillTokenTime as int + gap;
      if fine { CreditSteps(byteRate, refillTokenTime, gap); }
      hide U64, Refilled, CarryLeft, Fair, InRange;
      var elapsed := U64(now as int - lastUpdate as int);
      lastUpdate := now;
      refillTokenTime := U64(refillTokenTime as int + elapsed as int);
      if byteRate == 0 { U64Same(0); }
      refillTokens := U64(byteRate as int * refillTokenTime as int) as int / NS;
      if refillTokens > 0 {
        var remainTime := U64(refillTokenTime as int - U64(refillTokens as int * NS) as int / byteRate as int);
        refillTokenTime := remainTime;
      }
    }

    /** The second part: the packet is judged by the buckets as they were, and the refill is
        spread over both. */
    method Admit(refillTokens: u64, pktLen: u32) returns (color: Color)
      requires tc <= cbs && te <= ebs
      modifies this`tc, this`te
      ensures color == (if old(tc) >= pktLen then Green else if old(te) >= pktLen then Yellow else Red)
      ensures cbs as int + ebs as int + refillTokens as int < TWO64 ==>
                var full := Min(old(tc) + refillTokens, cbs);
                var excess := Min(old(te) + (old(tc) + refillTokens - full), ebs);
                && tc == full - (if color == Green then pktLen else 0)
                && te == excess - (if color == Yellow then pktLen else 0)
    {
      hide U64;
      ghost var fine := cbs as int + ebs as int + refillTokens as int < TWO64;
      if fine { U64Same(tc as int + refillTokens as int); }
      var newTc := U64(tc as int + refillTokens as int);
      var newTe := te;
      if newTc > cbs {
        if fine { U64Same(newTe as int + (newTc as int - cbs as int)); }
        newTe := U64(newTe as int + (newTc as int - cbs as int));
        if newTe > ebs { newTe := ebs; }
        newTc := cbs;
      }
      if tc >= pktLen {
        if fine { U64Same(newTc as int - pktLen as int); }
        tc := U64(newTc as int - pktLen as int);
        te := newTe;
        return Green;
      }
      if te >= pktLen {
        if fine { U64Same(newTe as int - pktLen as int); }
        tc := newTc;
        te := U64(newTe as int - pktLen as int);
        return Yellow;
      }
      tc := newTc;
      te := newTe;
      return Red;
    }

    /** policePacket, with every 64-bit operation allowed to wrap. The color always goes by the
        tokens held before the refill; while in range nothing wraps, and the packet is treated as
        Police says. */
    method PolicePacket(now: u64, pktLen: u32) returns (color: Color)
      requires Valid()
      modifies this
      ensures lastUpdate == now && byteRate == old(byteRate) && cbs == old(cbs) && ebs == old(ebs)
      ensures color == (if old(tc) >= pktLen then Green else if old(te) >= pktLen then Yellow else Red)
      ensures old(InRange(now)) ==>
                Valid() && var v := Police(old(Tokens()), now as int - old(lastUpdate) as int, pktLen);
                Tokens() == v.after && color == v.color
    {
      ghost var b, gap: int := Tokens(), now as int - lastUpdate as int;
      if InRange(now) { PoliceFair(b, gap, pktLen); }
      hide Refilled, CarryLeft, Fair, U64, Burst, InRange;
      BurstSmall(byteRate);
      var refillTokens := Credit(now);
      color := Admit(refillTokens, pktLen);
    }
  }

  lemma BurstSmall(rate: nat)
    ensures Burst(rate) <= rate + MTU
  {}

  /** What keeps the refill within 64 bits. */
  ghost predicate RoomFor(rate: nat, carry: nat, gap: int) {
    rate * gap + rate + NS < TWO64 && (rate == 0 ==> carry + gap < TWO64)
  }

  lemma U64Same(x: int)
    requires 0 <= x < TWO64
    ensures U64(x) == x
  {}

  /** In range, none of the 64-bit steps of Credit wraps. */
  lemma CreditSteps(rate: nat, carry: nat, gap: nat)
    requires rate * carry < NS + rate && RoomFor(rate, carry, gap)
    ensures var time := carry + gap; var n := Refilled(rate, time);
            && U64(gap) == gap && U64(time) == time
            && U64(rate * time) / NS == n <= TWO64 / NS
            && (n > 0 ==> rate > 0 && U64(time - U64(n * NS) / rate) == CarryLeft(rate, time))
            && (n == 0 ==> CarryLeft(rate, time) == time)
  {
    var time := carry + gap;
    var n := Refilled(rate, time);
    NoWrap(rate, carry, gap);
    U64Same(gap);
    U64Same(time);
    U64Same(rate * time);
    U64Same(n * NS);
    U64Same(CarryLeft(rate, time));
    hide U64;
  }

  /** The products and sums of Credit fit 64 bits. */
  lemma NoWrap(rate: nat, carry: nat, gap: nat)
    requires rate * carry < NS + rate && RoomFor(rate, carry, gap)
    ensures var time := carry + gap;
            && rate * time < TWO64 && time < TWO64
            && 0 <= Refilled(rate, time) * NS <= rate * time
            && Refilled(rate, time) <= TWO64 / NS
            && 0 <= CarryLeft(rate, time) < TWO64
  {
    var time := carry + gap;
    assert rate * time == rate * carry + rate * gap;
    if rate > 0 { MulMono(time, 1, rate); }
    assert time * 1 == time && time * rate == rate * time;
    CarryNonNegative(rate, time);
  }
}
