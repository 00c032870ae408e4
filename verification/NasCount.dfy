/** NAS COUNT over the uplink: NASEncode on the phone side
    (integrity-ciphering-nas.go) and Decode on the network side (decoder.go), which rebuilds the
    24-bit count from the eight bits that travel. Section 4.4.3 of TS 24.501. */
module NasCount {
  import opened Types

  const TWO24: int := 0x100_0000

  // ---------- the count ----------

  /** security.Count: a 16-bit overflow counter and an 8-bit sequence number. */
  datatype Count = Count(overflow: u16, sqn: u8) {
    function Get(): (r: nat)
      ensures r < TWO24
    {
      overflow as int * 256 + sqn as int
    }

    function AddOne(): (r: Count)
      ensures r.Get() == if Get() == TWO24 - 1 then 0 else Get() + 1
    {
      if sqn < 255 then Count(overflow, sqn + 1) else Count(Succ16(overflow), 0)
    }
  }

  function Succ16(x: u16): (r: u16) { if x == 0xFFFF then 0 else x + 1 }

  const ZERO: Count := Count(0, 0)

  /** How far b is ahead of a, counting modulo 2^24. */
  function Ahead(a: Count, b: Count): (d: nat)
    ensures d < TWO24
  {
    if b.Get() >= a.Get() then b.Get() - a.Get() else b.Get() - a.Get() + TWO24
  }

  /** What the receiver makes of a sequence number. */
  function Rebuild(base: Count, sqn: u8): (r: Count) {
    if base.sqn > sqn then Count(Succ16(base.overflow), sqn) else Count(base.overflow, sqn)
  }

  /** The count is rebuilt exactly when the sender is at most 255 ahead, wherever the counts
      stand and across the wrap at 2^24. */
  lemma RebuildIff(base: Count, sent: Count)
    ensures Rebuild(base, sent.sqn) == sent <==> Ahead(base, sent) <= 255
  {}

  // ---------- algorithms and messages ----------

  /** Integrity and ciphering under the keys both sides hold, as functions of the count. */
  datatype Algorithms = Algorithms(
    mac: (nat, seq<u8>) -> Option<seq<u8>>,
    cipher: (nat, seq<u8>) -> Option<seq<u8>>)
  {
    /** Authentication codes have four bytes; ciphering keeps the length, and doing it twice
        gives the text back. */
    ghost predicate Lawful() {
      && (forall n, p :: mac(n, p).Some? ==> |mac(n, p).value| == 4)
      && (forall n, p :: cipher(n, p).Some? ==>
            |cipher(n, p).value| == |p| && cipher(n, cipher(n, p).value) == Some(p))
    }
  }

  /** The null algorithms NIA0 and NEA0 are lawful. */
  lemma NullAlgorithmsLawful()
    ensures Algorithms((n, p) => Some([0, 0, 0, 0]), (n, p) => Some(p)).Lawful()
  {}

  const INTEGRITY: u8 := 1
  const INTEGRITY_CIPHERED: u8 := 2
  const INTEGRITY_NEW: u8 := 3
  const INTEGRITY_CIPHERED_NEW: u8 := 4

  predicate SenderCiphers(kind: u8) { kind != INTEGRITY && kind != INTEGRITY_NEW }

  /** The protected message for one count. */
  function Protect(alg: Algorithms, count: Count, epd: u8, kind: u8, plain: seq<u8>): (r: Option<seq<u8>>) {
    var body := if SenderCiphers(kind) then alg.cipher(count.Get(), plain) else Some(plain);
    if body.None? then None
    else
      var mac := alg.mac(count.Get(), [count.sqn] + body.value);
      if mac.None? then None else Some([epd, kind] + (mac.value + ([count.sqn] + body.value)))
  }

  datatype Received = Received(text: Option<seq<u8>>, integrity: bool, count: Count)

  function Rejected(count: Count): (r: Received) { Received(None, false, count) }

  /** Where the receiver starts counting: from its count, or from zero for a new context. */
  function Base(count: Count, kind: u8): (r: Count) {
    if kind == INTEGRITY_NEW || kind == INTEGRITY_CIPHERED_NEW then ZERO else count
  }

  /** What a message does to the receiver. */
  function Accept(alg: Algorithms, readable: seq<u8> -> bool, count: Count, payload: seq<u8>): (r: Received) {
    if |payload| < 10 || !(INTEGRITY <= payload[1] % 16 <= INTEGRITY_CIPHERED_NEW) then Rejected(count)
    else
      var kind := payload[1] % 16;
      var rebuilt := Rebuild(Base(count, kind), payload[6]);
      var mac := alg.mac(rebuilt.Get(), payload[6..]);
      var integrity := mac == Some(payload[2..6]);
      var ciphered := kind == INTEGRITY_CIPHERED || kind == INTEGRITY_CIPHERED_NEW;
      if mac.None? || (ciphered && !integrity) then Rejected(count)
      else
        var text := if ciphered then alg.cipher(rebuilt.Get(), payload[7..]) else Some(payload[7..]);
        if text.None? || !readable(text.value) then Rejected(count)
        else Received(text, integrity, if integrity then rebuilt else count)
  }

  lemma Layout(epd: u8, kind: u8, mac: seq<u8>, sqn: u8, body: seq<u8>)
    requires |mac| == 4
    ensures var payload := [epd, kind] + (mac + ([sqn] + body));
            && |payload| == 7 + |body| && payload[1] == kind && payload[2..6] == mac
            && payload[6] == sqn && payload[6..] == [sqn] + body && payload[7..] == body
  {
    var payload := [epd, kind] + (mac + ([sqn] + body));
    assert payload[2..] == mac + ([sqn] + body);
    assert payload[2..6] == payload[2..][..4];
    assert payload[6..] == payload[2..][4..];
    assert payload[7..] == payload[6..][1..];
  }

  lemma LawfulAt(alg: Algorithms, n: nat, p: seq<u8>)
    requires alg.Lawful()
    ensures alg.mac(n, p).Some? ==> |alg.mac(n, p).value| == 4
    ensures alg.cipher(n, p).Some? ==>
              |alg.cipher(n, p).value| == |p| && alg.cipher(n, alg.cipher(n, p).value) == Some(p)
  {}

  /** The parts of a protected message. */
  lemma ProtectedParts(alg: Algorithms, sent: Count, epd: u8, kind: u8, plain: seq<u8>)
      returns (payload: seq<u8>, body: seq<u8>)
    requires alg.Lawful() && Protect(alg, sent, epd, kind, plain).Some?
    ensures Protect(alg, sent, epd, kind, plain) == Some(payload)
    ensures |payload| == 7 + |plain| && payload[1] == kind && payload[6] == sent.sqn && payload[7..] == body
    ensures alg.mac(sent.Get(), payload[6..]) == Some(payload[2..6])
    ensures if SenderCiphers(kind) then alg.cipher(sent.Get(), body) == Some(plain) else body == plain
  {
    hide Algorithms.Lawful, Count.Get;
    LawfulAt(alg, sent.Get(), plain);
    body := if SenderCiphers(kind) then alg.cipher(sent.Get(), plain).value else plain;
    LawfulAt(alg, sent.Get(), [sent.sqn] + body);
    var mac := alg.mac(sent.Get(), [sent.sqn] + body).value;
    payload := [epd, kind] + (mac + ([sent.sqn] + body));
    Layout(epd, kind, mac, sent.sqn, body);
  }

  /** A message protected under a count is read back, as itself and under that count, when the
      receiver starts at most 255 behind. */
  lemma AcceptProtected(alg: Algorithms, readable: seq<u8> -> bool, at: Count, sent: Count,
                        epd: u8, kind: u8, plain: seq<u8>)
    requires alg.Lawful() && INTEGRITY <= kind <= INTEGRITY_CIPHERED_NEW
    requires |plain| >= 3 && readable(plain)
    requires Ahead(Base(at, kind), sent) <= 255
    requires Protect(alg, sent, epd, kind, plain).Some?
    ensures Accept(alg, readable, at, Protect(alg, sent, epd, kind, plain).value) == Received(Some(plain), true, sent)
  {
    hide Count.Get, Ahead, Rebuild, Algorithms.Lawful, Protect, Base;
    var payload, body := ProtectedParts(alg, sent, epd, kind, plain);
    RebuildIff(Base(at, kind), sent);
  }

  /** The receiver's count moves only for a message whose code verifies under the count it moves
      to; everything else, forged or garbled, leaves it. */
  lemma OnlyVerifiedMoves(alg: Algorithms, readable: seq<u8> -> bool, at: Count, payload: seq<u8>)
    ensures var r := Accept(alg, readable, at, payload);
            && (r.integrity ==> |payload| >= 10 && alg.mac(r.count.Get(), payload[6..]) == Some(payload[2..6])
                                && r.count.sqn == payload[6] && r.text.Some?)
            && (!r.integrity ==> r.count == at)
  {}

  // ---------- the two objects ----------

  class UeSecurity {
    var ulCount: Count
    var dlCount: Count

    constructor ()
      ensures ulCount == ZERO && dlCount == ZERO
    {
      ulCount, dlCount := ZERO, ZERO;
    }

    /** NASEncode. The count moves by one for each message that is built, and for nothing else but
        a new context; plain is the encoded inner message, if its encoding succeeded. */
    method NasEncode(alg: Algorithms, epd: u8, kind: u8, plain: Option<seq<u8>>, available: bool, newContext: bool)
        returns (payload: Option<seq<u8>>)
      modifies this
      ensures !available ==> payload == plain && ulCount == old(ulCount) && dlCount == old(dlCount)
      ensures available ==>
                var base := if newContext then ZERO else old(ulCount);
                && payload == (if plain.Some? then Protect(alg, base, epd, kind, plain.value) else None)
                && ulCount == (if payload.Some? then base.AddOne() else base)
                && dlCount == if newContext then ZERO else old(dlCount)
    {
      hide Count.Get;
      if !available { return plain; }
      if newContext {
        ulCount := ZERO;
        dlCount := ZERO;
      }
      var sequenceNumber := ulCount.sqn;
      if plain.None? { return None; }
      var body := plain.value;
      if kind != INTEGRITY && kind != INTEGRITY_NEW {
        var ciphered := alg.cipher(ulCount.Get(), body);
        if ciphered.None? { return None; }
        body := ciphered.value;
      }
      body := [sequenceNumber] + body;
      var mac := alg.mac(ulCount.Get(), body);
      if mac.None? { return None; }
      body := [epd, kind] + (mac.value + body);
      ulCount := ulCount.AddOne();
      return Some(body);
    }
  }

  class SecurityContext {
    var ulCount: Count

    constructor ()
      ensures ulCount == ZERO
    {
      ulCount := ZERO;
    }

    /** Decode: works on a copy of the count and stores it only at the very end. */
    method Decode(alg: Algorithms, readable: seq<u8> -> bool, payload: seq<u8>)
        returns (text: Option<seq<u8>>, integrity: bool)
      modifies this
      ensures Received(text, integrity, ulCount) == Accept(alg, readable, old(ulCount), payload)
    {
      text, integrity := None, false;
      var count := ulCount;
      if |payload| < 10 { return; }
      var kind, sequenceNumber := payload[1] % 16, payload[6];
      var receivedMac, rest := payload[2..6], payload[6..];
      var ciphered := false;
      if kind == INTEGRITY {
      } else if kind == INTEGRITY_CIPHERED {
        ciphered := true;
      } else if kind == INTEGRITY_NEW {
        count := ZERO;
      } else if kind == INTEGRITY_CIPHERED_NEW {
        ciphered := true;
        count := ZERO;
      } else {
        return;
      }
      if count.sqn > sequenceNumber { count := count.(overflow := Succ16(count.overflow)); }
      count := count.(sqn := sequenceNumber);
      var mac := alg.mac(count.Get(), rest);
      if mac.None? { return; }
      var matches := mac.value == receivedMac;
      rest := rest[1..];
      assert rest == payload[7..];
      if ciphered {
        if !matches { return; }
        var clear := alg.cipher(count.Get(), rest);
        if clear.None? { return; }
        rest := clear.value;
      }
      if !readable(rest) { return; }
      if matches { ulCount := count; }
      return Some(rest), matches;
    }
  }

  // ---------- runs over a lossy channel ----------

  datatype Message = Message(epd: u8, kind: u8, plain: seq<u8>) {
    /** A message that opens a new security context resets the sender's count. */
    predicate Fresh() { kind == INTEGRITY_NEW || kind == INTEGRITY_CIPHERED_NEW }

    ghost predicate Sendable(alg: Algorithms, readable: seq<u8> -> bool, count: Count) {
      INTEGRITY <= kind <= INTEGRITY_CIPHERED_NEW && |plain| >= 3 && readable(plain) &&
      Protect(alg, count, epd, kind, plain).Some?
    }
  }

  datatype Event = Lost(m: Message) | Delivered(m: Message) | Injected(payload: seq<u8>)

  datatype Link = Link(sender: Count, receiver: Count)

  /** The count a message goes out under. */
  function SentUnder(l: Link, m: Message): (r: Count) { if m.Fresh() then ZERO else l.sender }

  ghost function Next(alg: Algorithms, readable: seq<u8> -> bool, l: Link, e: Event): (r: Link)
    requires e.Injected? || e.m.Sendable(alg, readable, SentUnder(l, e.m))
  {
    match e
    case Lost(m) => Link(SentUnder(l, m).AddOne(), l.receiver)
    case Delivered(m) =>
      var sent := SentUnder(l, m);
      Link(sent.AddOne(), Accept(alg, readable, l.receiver, Protect(alg, sent, m.epd, m.kind, m.plain).value).count)
    case Injected(payload) => Link(l.sender, Accept(alg, readable, l.receiver, payload).count)
  }

  /** How many losses in a row the receiver can still bridge. */
  function Reach(l: Link): (r: Option<nat>) {
    if Ahead(l.receiver, l.sender) <= 255 then Some(255 - Ahead(l.receiver, l.sender)) else None
  }

  /** How many more losses the link can take, from l to n: none is left once a run of losses is
      too long, the message that opened a new context was lost, or an injected message that was
      accepted (an old one that opened a context, say) has put the receiver out of reach. */
  function Slack(slack: Option<nat>, e: Event, l: Link, n: Link): (r: Option<nat>) {
    match e
    case Lost(m) => if m.Fresh() || slack.None? || slack.value == 0 then None else Some(slack.value - 1)
    case Delivered(m) => Some(254)
    case Injected(_) => if n.receiver == l.receiver then slack else Reach(n)
  }

  /** Runs, with any injected messages at all, in which every message can be sent and one arrives
      only within the losses allowed, or opens a new context. */
  ghost predicate Tolerable(alg: Algorithms, readable: seq<u8> -> bool, l: Link, slack: Option<nat>, run: seq<Event>)
    decreases |run|
  {
    if run == [] then true else
    var e := run[0];
    && (e.Injected? || e.m.Sendable(alg, readable, SentUnder(l, e.m)))
    && (e.Delivered? ==> slack.Some? || e.m.Fresh())
    && var n := Next(alg, readable, l, e); Tolerable(alg, readable, n, Slack(slack, e, l, n), run[1..])
  }

  /** What the receiver does with a message as it was sent. */
  ghost function Arrival(alg: Algorithms, readable: seq<u8> -> bool, l: Link, m: Message): (r: Received)
    requires m.Sendable(alg, readable, SentUnder(l, m))
  {
    Accept(alg, readable, l.receiver, Protect(alg, SentUnder(l, m), m.epd, m.kind, m.plain).value)
  }

  /** Every message that arrives is accepted as sent, under the count the sender used; and an
      injected one moves the receiver only to a count under which its code verifies. */
  ghost predicate Exact(alg: Algorithms, readable: seq<u8> -> bool, l: Link, run: seq<Event>)
    decreases |run|
  {
    if run == [] then true else
    var e := run[0];
    && (e.Injected? || e.m.Sendable(alg, readable, SentUnder(l, e.m)))
    && (e.Delivered? ==> Arrival(alg, readable, l, e.m) == Received(Some(e.m.plain), true, SentUnder(l, e.m)))
    && var n := Next(alg, readable, l, e);
       (e.Injected? && n.receiver != l.receiver ==> Verifies(alg, n.receiver, e.payload)) &&
       Exact(alg, readable, n, run[1..])
  }

  ghost predicate Verifies(alg: Algorithms, count: Count, payload: seq<u8>) {
    |payload| >= 10 && alg.mac(count.Get(), payload[6..]) == Some(payload[2..6])
  }

  /** Every message can be sent, and at every arrival the sender is within 255 of where the
      receiver starts. */
  ghost predicate WithinReach(alg: Algorithms, readable: seq<u8> -> bool, l: Link, run: seq<Event>)
    decreases |run|
  {
    if run == [] then true else
    var e := run[0];
    && (e.Injected? || e.m.Sendable(alg, readable, SentUnder(l, e.m)))
    && (e.Delivered? ==> Ahead(Base(l.receiver, e.m.kind), SentUnder(l, e.m)) <= 255)
    && WithinReach(alg, readable, Next(alg, readable, l, e), run[1..])
  }

  /** The receiver at a count takes a message as it was sent, under the sender's count. */
  ghost predicate TakenAsSent(alg: Algorithms, readable: seq<u8> -> bool, at: Count, sent: Count, m: Message)
    requires m.Sendable(alg, readable, sent)
  {
    Accept(alg, readable, at, Protect(alg, sent, m.epd, m.kind, m.plain).value) == Received(Some(m.plain), true, sent)
  }

  /** A message is accepted as sent exactly when the sender is at most 255 ahead of where the
      receiver starts: at its count, or at zero for a new context. */
  lemma AcceptedIff(alg: Algorithms, readable: seq<u8> -> bool, at: Count, sent: Count, m: Message)
    requires alg.Lawful() && m.Sendable(alg, readable, sent)
    ensures var r := Accept(alg, readable, at, Protect(alg, sent, m.epd, m.kind, m.plain).value);
            && (r.integrity && r.count == sent <==> Ahead(Base(at, m.kind), sent) <= 255)
            && (r.integrity && r.count == sent <==> TakenAsSent(alg, readable, at, sent, m))
  {
    hide Algorithms.Lawful, Protect, Rebuild, Count.Get, Ahead, Base;
    var payload, _ := ProtectedParts(alg, sent, m.epd, m.kind, m.plain);
    RebuildIff(Base(at, m.kind), sent);
    if Ahead(Base(at, m.kind), sent) <= 255 {
      AcceptProtected(alg, readable, at, sent, m.epd, m.kind, m.plain);
    }
  }

  /** For any run with any injected messages: every message that arrives is accepted as sent
      exactly when each arrives within reach. */
  lemma {:induction false} RunExactIff(alg: Algorithms, readable: seq<u8> -> bool, l: Link, run: seq<Event>)
    requires alg.Lawful()
    ensures Exact(alg, readable, l, run) <==> WithinReach(alg, readable, l, run)
    decreases |run|
  {
    hide Algorithms.Lawful, Protect, Accept, Message.Sendable, Count.Get, Ahead, Base, Verifies;
    if run == [] {
    } else {
      var e := run[0];
      if e.Injected? {
        InjectedVerifies(alg, readable, l, e);
        RunExactIff(alg, readable, Next(alg, readable, l, e), run[1..]);
      } else if e.m.Sendable(alg, readable, SentUnder(l, e.m)) {
        AcceptedIff(alg, readable, l.receiver, SentUnder(l, e.m), e.m);
        RunExactIff(alg, readable, Next(alg, readable, l, e), run[1..]);
      }
    }
  }

  lemma InjectedVerifies(alg: Algorithms, readable: seq<u8> -> bool, l: Link, e: Event)
    requires e.Injected?
    ensures var n := Next(alg, readable, l, e); n.receiver != l.receiver ==> Verifies(alg, n.receiver, e.payload)
  {
    hide Accept;
    OnlyVerifiedMoves(alg, readable, l.receiver, e.payload);
  }

  ghost predicate InStep(l: Link, slack: Option<nat>) {
    slack.Some? ==> Ahead(l.receiver, l.sender) + slack.value <= 255
  }

  /** In every tolerable run both sides agree on the count of every message that arrives, across
      the wrap at 2^24 and through new contexts. */
  lemma RunExact(alg: Algorithms, readable: seq<u8> -> bool, l: Link, slack: Option<nat>, run: seq<Event>)
    requires alg.Lawful() && InStep(l, slack) && Tolerable(alg, readable, l, slack, run)
    ensures Exact(alg, readable, l, run)
  {
    hide *;
    TolerableReaches(alg, readable, l, slack, run);
    RunExactIff(alg, readable, l, run);
  }

  lemma {:induction false} TolerableReaches(alg: Algorithms, readable: seq<u8> -> bool, l: Link, slack: Option<nat>,
                                            run: seq<Event>)
    requires alg.Lawful() && InStep(l, slack) && Tolerable(alg, readable, l, slack, run)
    ensures WithinReach(alg, readable, l, run)
    decreases |run|
  {
    hide Algorithms.Lawful, Protect, Accept, InStep, Next, Slack, Message.Sendable, Count.Get, Ahead, Base;
    if run == [] {
    } else {
      var e := run[0];
      StepInReach(alg, readable, l, slack, e);
      var n := Next(alg, readable, l, e);
      TolerableReaches(alg, readable, n, Slack(slack, e, l, n), run[1..]);
    }
  }

  lemma StepInReach(alg: Algorithms, readable: seq<u8> -> bool, l: Link, slack: Option<nat>, e: Event)
    requires alg.Lawful() && InStep(l, slack)
    requires e.Injected? || e.m.Sendable(alg, readable, SentUnder(l, e.m))
    requires e.Delivered? ==> slack.Some? || e.m.Fresh()
    ensures e.Delivered? ==> Ahead(Base(l.receiver, e.m.kind), SentUnder(l, e.m)) <= 255
    ensures var n := Next(alg, readable, l, e); InStep(n, Slack(slack, e, l, n))
  {
    hide Algorithms.Lawful, Protect, Accept, Rebuild, Count.Get;
    match e
    case Injected(payload) =>
    case Delivered(m) =>
      AcceptedIff(alg, readable, l.receiver, SentUnder(l, m), m);
    case Lost(m) =>
  }

  // ---------- repetitions ----------

  /** Decode has no memory of the counts it took. A message is accepted as sent once more exactly
      when it opens a new context, or the receiver still stands at its count, or has come round
      the counter to at most 255 before it. */
  lemma RepetitionIff(alg: Algorithms, readable: seq<u8> -> bool, at: Count, sent: Count, m: Message)
    requires alg.Lawful() && m.Sendable(alg, readable, sent) && (m.Fresh() ==> sent == ZERO)
    ensures TakenAsSent(alg, readable, at, sent, m) <==>
              m.Fresh() || at == sent || Ahead(sent, at) >= TWO24 - 255
  {
    hide Algorithms.Lawful, Protect, Accept, Message.Sendable, TakenAsSent, Count.Get, Ahead;
    AcceptedIff(alg, readable, at, sent, m);
    AheadBack(at, sent);
    AheadBack(ZERO, ZERO);
  }

  lemma AheadBack(a: Count, b: Count)
    ensures a != b ==> Ahead(a, b) + Ahead(b, a) == TWO24
    ensures a == b <==> Ahead(a, b) == 0
  {}

  lemma AheadOfZero(c: Count)
    ensures Ahead(ZERO, c) == c.Get()
  {
    hide Count.Get;
    ZeroIsZero();
  }

  lemma ZeroIsZero()
    ensures ZERO.Get() == 0
  {
    var overflow, sqn := ZERO.overflow, ZERO.sqn;
    assert overflow == 0 && sqn == 0;
  }

  /** So the message accepted last is accepted again, and changes nothing. */
  lemma RepetitionAccepted(alg: Algorithms, readable: seq<u8> -> bool, l: Link, m: Message)
    requires alg.Lawful() && m.Sendable(alg, readable, SentUnder(l, m))
    requires Ahead(Base(l.receiver, m.kind), SentUnder(l, m)) <= 255
    ensures var sent := SentUnder(l, m);
            var payload := Protect(alg, sent, m.epd, m.kind, m.plain).value;
            var first := Accept(alg, readable, l.receiver, payload);
            first == Received(Some(m.plain), true, sent) && Accept(alg, readable, first.count, payload) == first
  {
    hide Algorithms.Lawful, Protect, Accept, Rebuild, Count.Get;
    var sent := SentUnder(l, m);
    AcceptedIff(alg, readable, l.receiver, sent, m);
    AcceptedIff(alg, readable, sent, sent, m);
  }

  /** A message that opens a new context is accepted at any later time, and sets the receiver
      back to zero. */
  lemma OldContextReopens(alg: Algorithms, readable: seq<u8> -> bool, at: Count, m: Message)
    requires alg.Lawful() && m.Fresh() && m.Sendable(alg, readable, ZERO)
    ensures TakenAsSent(alg, readable, at, ZERO, m)
    ensures Accept(alg, readable, at, Protect(alg, ZERO, m.epd, m.kind, m.plain).value).count == ZERO
  {
    hide Algorithms.Lawful, Protect, Accept, Message.Sendable, Count.Get, Ahead;
    AheadBack(ZERO, ZERO);
    AcceptedIff(alg, readable, at, ZERO, m);
  }

  /** From there the sender's own messages are accepted as sent only up to count 255. */
  lemma AfterReopeningIff(alg: Algorithms, readable: seq<u8> -> bool, sent: Count, m: Message)
    requires alg.Lawful() && !m.Fresh() && m.Sendable(alg, readable, sent)
    ensures TakenAsSent(alg, readable, ZERO, sent, m) <==> sent.Get() <= 255
  {
    hide Algorithms.Lawful, Protect, Accept, Message.Sendable, TakenAsSent, Count.Get, Ahead;
    AheadOfZero(sent);
    AcceptedIff(alg, readable, ZERO, sent, m);
  }

  function Later(c: Count, k: nat): (r: Count) {
    if k == 0 then c else Later(c, k - 1).AddOne()
  }

  lemma {:induction false} LaterAhead(c: Count, k: nat)
    requires k < TWO24
    ensures Ahead(c, Later(c, k)) == k
  {
    hide Count.Get, Count.AddOne;
    if k == 0 {
    } else {
      LaterAhead(c, k - 1);
    }
  }

  /** Two sides that start at the same count stand up to 255 losses, but after a message has been
      accepted only 254: its successor is then already one ahead. */
  lemma LossLimitIff(c: Count, losses: nat)
    requires losses < TWO24 - 1
    ensures var first := Later(c, losses); Rebuild(c, first.sqn) == first <==> losses <= 255
    ensures var next := Later(c, losses + 1); Rebuild(c, next.sqn) == next <==> losses <= 254
  {
    LaterAhead(c, losses);
    LaterAhead(c, losses + 1);
    RebuildIff(c, Later(c, losses));
    RebuildIff(c, Later(c, losses + 1));
  }
}
