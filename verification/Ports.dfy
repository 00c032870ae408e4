/** SDF port lists: parsed from text and packed into 32-bit words by the Go side
    (flowdesc.go), unpacked and matched by the kernel side (genl_pdr.c, pdr.c). */
module Ports {
  import opened Types
  import opened Text

  /** One element of a port list: [p], or [first, last] in the order written. */
  type Entry = e: seq<u16> | |e| == 1 || |e| == 2 witness [0]

  datatype Range = Range(start: u16, end: u16)

  function Low(e: Entry): (r: u16) { if |e| == 2 && e[1] < e[0] then e[1] else e[0] }

  function High(e: Entry): (r: u16) { if |e| == 2 && e[0] < e[1] then e[1] else e[0] }

  /** What a port list means: q lies between the two ends of some entry. */
  predicate Covers(ports: seq<Entry>, q: u16) {
    exists i | 0 <= i < |ports| :: Low(ports[i]) <= q <= High(ports[i])
  }

  // ---------- text ----------

  function ParseEntry(s: string): (r: Option<Entry>) {
    if '-' !in s then
      match ParseUint(s, 0x1_0000)
      case Some(v) => Some([v])
      case None => None
    else
      var i := IndexOf(s, '-');
      match (ParseUint(s[..i], 0x1_0000), ParseUint(s[i + 1..], 0x1_0000))
      case (Some(a), Some(b)) => Some([a, b])
      case _ => None
  }

  function ParseEntries(fields: seq<string>): (r: Option<seq<Entry>>) {
    if fields == [] then Some([])
    else match (ParseEntries(fields[..|fields| - 1]), ParseEntry(fields[|fields| - 1]))
      case (Some(es), Some(e)) => Some(es + [e])
      case _ => None
  }

  function ParsedPorts(s: string): (r: Option<seq<Entry>>) { ParseEntries(Split(s, ',')) }

  lemma {:induction false} ParseEntriesPrefix(fields: seq<string>, k: nat)
    requires k <= |fields| && ParseEntries(fields[..k]).None?
    ensures ParseEntries(fields).None?
    decreases |fields| - k
  {
    if k < |fields| {
      assert fields[..k + 1][..k] == fields[..k];
      ParseEntriesPrefix(fields, k + 1);
    } else {
      assert fields[..k] == fields;
    }
  }

  method ParseFlowDescPorts(s: string) returns (r: Option<seq<Entry>>)
    ensures r == ParsedPorts(s)
    ensures r.Some? ==> |r.value| == |Split(s, ',')| >= 1
  {
    var fields := Split(s, ',');
    var vals: seq<Entry> := [];
    var k := 0;
    while k < |fields|
      invariant 0 <= k <= |fields|
      invariant ParseEntries(fields[..k]) == Some(vals) && |vals| == k
    {
      assert fields[..k + 1][..k] == fields[..k];
      var digits := fields[k];
      var i := if '-' in digits then IndexOf(digits, '-') else |digits|;
      var start := ParseUint(digits[..i], 0x1_0000);
      assert i == |digits| ==> digits[..i] == digits;
      if start.None? {
        ParseEntriesPrefix(fields, k + 1);
        return None;
      }
      if i == |digits| {
        vals := vals + [[start.value]];
      } else {
        var end := ParseUint(digits[i + 1..], 0x1_0000);
        if end.None? {
          ParseEntriesPrefix(fields, k + 1);
          return None;
        }
        vals := vals + [[start.value, end.value]];
      }
      k := k + 1;
    }
    assert fields[..k] == fields;
    return Some(vals);
  }

  function PrintEntry(e: Entry): (r: string) {
    if |e| == 1 then Decimal(e[0]) else Decimal(e[0]) + "-" + Decimal(e[1])
  }

  function PrintAll(ports: seq<Entry>): (r: seq<string>)
    ensures |r| == |ports| && forall i | 0 <= i < |r| :: r[i] == PrintEntry(ports[i])
  {
    seq(|ports|, i requires 0 <= i < |ports| => PrintEntry(ports[i]))
  }

  function PrintPorts(ports: seq<Entry>): (r: string)
    requires ports != []
  {
    Join(PrintAll(ports), ',')
  }

  lemma ParsePrintedEntry(e: Entry)
    ensures ParseEntry(PrintEntry(e)) == Some(e)
    ensures ',' !in PrintEntry(e)
  {
    ParsePrinted(e[0]);
    hide Decimal, ParseUint;
    if |e| == 2 {
      ParsePrinted(e[1]);
      var a, b, s := Decimal(e[0]), Decimal(e[1]), PrintEntry(e);
      FirstSeparator(a, b, '-');
      assert s == a + ['-'] + b;
      hide IndexOf;
      assert s[..|a|] == a && s[|a| + 1..] == b;
      assert e == [e[0], e[1]];
    } else {
      assert e == [e[0]];
    }
  }

  lemma ParsePrinted(p: u16)
    ensures ParseUint(Decimal(p), 0x1_0000) == Some(p)
    ensures '-' !in Decimal(p) && ',' !in Decimal(p)
  {
    ValueOfDecimal(p);
  }

  lemma {:induction false} ParsePrintedEntries(ports: seq<Entry>)
    ensures ParseEntries(PrintAll(ports)) == Some(ports)
  {
    if ports == [] {
    } else {
      var n := |ports| - 1;
      ParsePrintedEntries(ports[..n]);
      ParsePrintedEntry(ports[n]);
      assert PrintAll(ports)[..n] == PrintAll(ports[..n]);
      assert ports == ports[..n] + [ports[n]];
    }
  }

  /** Reading back the printed form of a non-empty port list gives the list. */
  lemma PrintParseRoundTrip(ports: seq<Entry>)
    requires ports != []
    ensures ParsedPorts(PrintPorts(ports)) == Some(ports)
  {
    forall p | p in PrintAll(ports) ensures ',' !in p {
      var i :| 0 <= i < |ports| && p == PrintAll(ports)[i];
      ParsePrintedEntry(ports[i]);
    }
    SplitOfJoin(PrintAll(ports), ',');
    ParsePrintedEntries(ports);
  }

  // ---------- words ----------

  /** Little-endian bytes of a 32-bit word. */
  function WordBytes(w: u32): (b: seq<u8>)
    ensures |b| == 4
  {
    [w % 256, w / 256 % 256, w / 256 / 256 % 256, w / 256 / 256 / 256]
  }

  function BytesWord(b: seq<u8>): (r: u32)
    requires |b| == 4
  {
    b[0] as int + 256 * (b[1] as int + 256 * (b[2] as int + 256 * b[3] as int))
  }

  lemma WordBytesRoundTrip(w: u32)
    ensures BytesWord(WordBytes(w)) == w
  {}

  function JoinHalves(high: u16, low: u16): (r: u32) { high as int * 0x1_0000 + low as int }

  lemma HalvesOfJoin(high: u16, low: u16)
    ensures JoinHalves(high, low) % 0x1_0000 == low && JoinHalves(high, low) / 0x1_0000 == high
  {}

  function EntryWord(e: Entry): (r: u32) {
    if |e| == 1 then JoinHalves(e[0], e[0]) else JoinHalves(e[0], e[1])
  }

  function Words(ports: seq<Entry>): (ws: seq<u32>)
    ensures |ws| == |ports| && forall i | 0 <= i < |ws| :: ws[i] == EntryWord(ports[i])
  {
    seq(|ports|, i requires 0 <= i < |ports| => EntryWord(ports[i]))
  }

  /** The bytes of a run of words, one after the other. */
  function Packed(ws: seq<u32>): (b: seq<u8>)
    ensures |b| == 4 * |ws|
  {
    if ws == [] then [] else Packed(ws[..|ws| - 1]) + WordBytes(ws[|ws| - 1])
  }

  /** Stores x at off, the way both sides write a word through a 32-bit pointer. */
  method PutWord(b: array<u8>, off: nat, x: u32)
    requires off + 4 <= b.Length
    modifies b
    ensures b[..off + 4] == old(b[..off]) + WordBytes(x)
  {
    b[off], b[off + 1], b[off + 2], b[off + 3] := x % 256, x / 256 % 256, x / 256 / 256 % 256, x / 256 / 256 / 256;
  }

  /** One turn of the loop of EncodePorts: the first port in the upper half. */
  method EncodeEntry(p: Entry) returns (x: u32)
    ensures x == EntryWord(p)
  {
    if |p| == 1 {
      x := p[0] as int * 0x1_0000 + p[0] as int;
    } else {
      x := p[0] as int * 0x1_0000 + p[1] as int;
    }
  }

  method EncodePorts(ports: seq<Entry>) returns (b: array<u8>)
    ensures fresh(b) && b[..] == Packed(Words(ports))
  {
    b := new u8[4 * |ports|](_ => 0);
    var k, off := 0, 0;
    ghost var ws := Words(ports);
    while k < |ports|
      invariant 0 <= k <= |ports| && off == 4 * k
      invariant b[..off] == Packed(ws[..k])
    {
      var x := EncodeEntry(ports[k]);
      PutWord(b, off, x);
      assert ws[..k + 1][..k] == ws[..k];
      k, off := k + 1, off + 4;
    }
    assert ws[..k] == ws && b[..off] == b[..];
  }

  function WordRange(w: u32): (r: Range) {
    var port1, port2 := w % 0x1_0000, w / 0x1_0000;
    if port1 <= port2 then Range(port1, port2) else Range(port2, port1)
  }

  function Ranges(ws: seq<u32>): (rs: seq<Range>)
    ensures |rs| == |ws| && forall i | 0 <= i < |rs| :: rs[i] == WordRange(ws[i])
  {
    seq(|ws|, i requires 0 <= i < |ws| => WordRange(ws[i]))
  }

  /** The words of an attribute; trailing bytes short of a word are not read. */
  function AttrWords(b: seq<u8>): (ws: seq<u32>)
    ensures |ws| == |b| / 4 && forall i | 0 <= i < |ws| :: ws[i] == BytesWord(b[4 * i..4 * i + 4])
  {
    seq(|b| / 4, i requires 0 <= i < |b| / 4 => BytesWord(b[4 * i..4 * i + 4]))
  }

  /** The port loop of parse_ip_filter_rule. */
  method DecodePorts(b: seq<u8>) returns (ports: seq<Range>)
    ensures ports == Ranges(AttrWords(b))
  {
    var n := |b| / 4;
    var buf := new Range[n](_ => Range(0, 0));
    var i := 0;
    while i < n
      invariant 0 <= i <= n
      invariant forall j | 0 <= j < i :: buf[j] == WordRange(AttrWords(b)[j])
    {
      var w := BytesWord(b[4 * i..4 * i + 4]);
      var port1, port2 := w % 0x1_0000, w / 0x1_0000;
      if port1 <= port2 {
        buf[i] := Range(port1, port2);
      } else {
        buf[i] := Range(port2, port1);
      }
      i := i + 1;
    }
    ports := buf[..];
  }

  /** The words gtp5g_genl_fill_rule reports for a rule's ranges. */
  function FilledWords(rs: seq<Range>): (ws: seq<u32>)
    ensures |ws| == |rs| && forall i | 0 <= i < |ws| :: ws[i] == JoinHalves(rs[i].end, rs[i].start)
  {
    seq(|rs|, i requires 0 <= i < |rs| => JoinHalves(rs[i].end, rs[i].start))
  }

  method FillRulePorts(rs: seq<Range>) returns (b: array<u8>)
    ensures fresh(b) && b[..] == Packed(FilledWords(rs))
  {
    b := new u8[4 * |rs|](_ => 0);
    var k := 0;
    ghost var ws := FilledWords(rs);
    while k < |rs|
      invariant 0 <= k <= |rs|
      invariant b[..4 * k] == Packed(ws[..k])
    {
      PutWord(b, 4 * k, JoinHalves(rs[k].end, rs[k].start));
      assert ws[..k + 1][..k] == ws[..k];
      k := k + 1;
    }
    assert ws[..k] == ws && b[..4 * k] == b[..];
  }

  /** ports_match: an empty list accepts every port. */
  method PortsMatch(list: seq<Range>, port: u16) returns (r: bool)
    ensures r == Matches(list, port)
  {
    if |list| == 0 { return true; }
    var i := 0;
    while i < |list|
      invariant 0 <= i <= |list|
      invariant forall j | 0 <= j < i :: !(list[j].start <= port <= list[j].end)
    {
      if list[i].start <= port && list[i].end >= port { return true; }
      i := i + 1;
    }
    return false;
  }

  predicate Matches(list: seq<Range>, port: u16) {
    list == [] || exists i | 0 <= i < |list| :: list[i].start <= port <= list[i].end
  }

  lemma AttrWordsAppend(b: seq<u8>, n: nat, w: u32)
    requires |b| == 4 * n
    ensures AttrWords(b + WordBytes(w)) == AttrWords(b) + [w]
  {
    var c := b + WordBytes(w);
    assert |c| / 4 == n + 1 && |b| / 4 == n;
    forall i | 0 <= i < n ensures AttrWords(c)[i] == AttrWords(b)[i] {
      assert c[4 * i..4 * i + 4] == b[4 * i..4 * i + 4];
    }
    assert c[4 * n..4 * n + 4] == WordBytes(w);
    WordBytesRoundTrip(w);
  }

  lemma {:induction false} AttrWordsOfPacked(ws: seq<u32>)
    ensures AttrWords(Packed(ws)) == ws
  {
    if ws == [] {
    } else {
      var n := |ws| - 1;
      AttrWordsOfPacked(ws[..n]);
      AttrWordsAppend(Packed(ws[..n]), n, ws[n]);
      assert ws == ws[..n] + [ws[n]];
    }
  }

  /** Each entry becomes the range between its bounds. */
  lemma RangesOfWords(ports: seq<Entry>)
    requires ports != []
    ensures var rs := Ranges(Words(ports));
            |rs| == |ports| && forall i | 0 <= i < |ports| :: rs[i] == Range(Low(ports[i]), High(ports[i]))
  {
    var rs := Ranges(Words(ports));
    forall i | 0 <= i < |ports| ensures rs[i] == Range(Low(ports[i]), High(ports[i])) {
      HalvesOfJoin(ports[i][0], if |ports[i]| == 1 then ports[i][0] else ports[i][1]);
    }
  }

  /** Compiling a non-empty port list keeps its meaning, reversed entries included. */
  lemma CompiledPortsMatch(ports: seq<Entry>, q: u16)
    requires ports != []
    ensures Matches(Ranges(AttrWords(Packed(Words(ports)))), q) <==> Covers(ports, q)
  {
    hide AttrWords, Packed, Words, Ranges, Low, High;
    AttrWordsOfPacked(Words(ports));
    RangesOfWords(ports);
    var rs := Ranges(Words(ports));
    if Matches(rs, q) {
      var i :| 0 <= i < |rs| && rs[i].start <= q <= rs[i].end;
      assert Low(ports[i]) <= q <= High(ports[i]);
    }
    if Covers(ports, q) {
      var i :| 0 <= i < |ports| && Low(ports[i]) <= q <= High(ports[i]);
      assert rs[i].start <= q <= rs[i].end;
    }
  }

  /** The text a user writes and the kernel's verdict agree on every port. */
  lemma FlowTextMeaning(text: string, q: u16)
    requires ParsedPorts(text).Some?
    ensures var ports := ParsedPorts(text).value;
            Matches(Ranges(AttrWords(Packed(Words(ports)))), q) <==> Covers(ports, q)
  {
    ParsedNonEmpty(Split(text, ','));
    CompiledPortsMatch(ParsedPorts(text).value, q);
  }

  lemma ParsedNonEmpty(fields: seq<string>)
    requires fields != [] && ParseEntries(fields).Some?
    ensures ParseEntries(fields).value != []
  {}

  /** Reporting a stored rule and parsing the report gives back the same ranges. */
  lemma FillParseIdentity(rs: seq<Range>)
    requires forall i | 0 <= i < |rs| :: rs[i].start <= rs[i].end
    ensures Ranges(AttrWords(Packed(FilledWords(rs)))) == rs
  {
    AttrWordsOfPacked(FilledWords(rs));
    forall i | 0 <= i < |rs| ensures WordRange(FilledWords(rs)[i]) == rs[i] {
      HalvesOfJoin(rs[i].end, rs[i].start);
    }
  }

  /** Every rule the parser can have stored is in the form FillParseIdentity needs. */
  lemma ParsedRangesOrdered(b: seq<u8>)
    ensures forall i | 0 <= i < |Ranges(AttrWords(b))| ::
              Ranges(AttrWords(b))[i].start <= Ranges(AttrWords(b))[i].end
  {}
}
