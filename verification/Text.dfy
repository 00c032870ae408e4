/** The few string operations that the Go code takes from its standard library. */
module Text {
  import opened Types

  predicate IsDigit(c: char) { '0' <= c <= '9' }

  predicate AllDigits(s: string) { forall i | 0 <= i < |s| :: IsDigit(s[i]) }

  /** Position of the first separator. */
  function IndexOf(s: string, sep: char): (i: nat)
    requires sep in s
    ensures i < |s| && s[i] == sep && sep !in s[..i]
  {
    if s[0] == sep then 0
    else
      assert s == [s[0]] + s[1..];
      var k := IndexOf(s[1..], sep);
      assert s[..k + 1] == [s[0]] + s[1..][..k];
      k + 1
  }

  lemma {:induction false} FirstSeparator(h: string, t: string, sep: char)
    requires sep !in h
    ensures sep in h + [sep] + t && IndexOf(h + [sep] + t, sep) == |h|
  {
    var s := h + [sep] + t;
    assert s[|h|] == sep;
    if h == "" {
    } else {
      FirstSeparator(h[1..], t, sep);
      assert s[1..] == h[1..] + [sep] + t;
    }
  }

  /** strings.Split for a one-character separator. */
  function Split(s: string, sep: char): (parts: seq<string>)
    ensures |parts| >= 1
    ensures forall i | 0 <= i < |parts| :: sep !in parts[i]
  {
    if sep !in s then [s]
    else
      var i := IndexOf(s, sep);
      [s[..i]] + Split(s[i + 1..], sep)
  }

  function Join(parts: seq<string>, sep: char): (r: string)
    requires |parts| >= 1
  {
    if |parts| == 1 then parts[0] else parts[0] + [sep] + Join(parts[1..], sep)
  }

  lemma SplitAtFirst(h: string, t: string, sep: char)
    requires sep !in h
    ensures Split(h + [sep] + t, sep) == [h] + Split(t, sep)
  {
    var s := h + [sep] + t;
    FirstSeparator(h, t, sep);
    assert s[..|h|] == h && s[|h| + 1..] == t;
  }

  /** Splitting undoes joining whenever no part holds the separator. */
  lemma {:induction false} SplitOfJoin(parts: seq<string>, sep: char)
    requires |parts| >= 1
    requires forall p | p in parts :: sep !in p
    ensures Split(Join(parts, sep), sep) == parts
  {
    if |parts| == 1 {
      assert parts == [parts[0]];
    } else {
      var h, rest := parts[0], parts[1..];
      assert parts == [h] + rest;
      SplitOfJoin(rest, sep);
      SplitAtFirst(h, Join(rest, sep), sep);
    }
  }

  /** And joining undoes splitting. */
  lemma {:induction false} JoinOfSplit(s: string, sep: char)
    ensures Join(Split(s, sep), sep) == s
    decreases |s|
  {
    if sep in s {
      var i := IndexOf(s, sep);
      JoinOfSplit(s[i + 1..], sep);
      assert s == s[..i] + [sep] + s[i + 1..];
      assert Split(s, sep)[1..] == Split(s[i + 1..], sep);
    }
  }

  lemma {:induction false} SplitAcross(h: string, t: string, sep: char)
    ensures |Split(h + [sep] + t, sep)| == |Split(h, sep)| + |Split(t, sep)|
    decreases |h|
  {
    if sep !in h {
      SplitAtFirst(h, t, sep);
    } else {
      var i := IndexOf(h, sep);
      var rest := h[i + 1..];
      assert |Split(h, sep)| == 1 + |Split(rest, sep)|;
      hide Split, IndexOf;
      SplitAcross(rest, t, sep);
      assert h == h[..i] + [sep] + rest;
      assert h + [sep] + t == h[..i] + [sep] + (rest + [sep] + t);
      SplitAtFirst(h[..i], rest + [sep] + t, sep);
    }
  }

  lemma OnlyPart(s: string, sep: char)
    ensures |Split(s, sep)| == 1 ==> sep !in s
  {}

  /** Splitting a joined text gives as many parts as were joined only when no part held the
      separator. */
  lemma {:induction false} SplitCount(parts: seq<string>, sep: char)
    requires |parts| >= 1
    ensures |Split(Join(parts, sep), sep)| >= |parts|
    ensures |Split(Join(parts, sep), sep)| == |parts| ==> forall p | p in parts :: sep !in p
  {
    if |parts| == 1 {
      assert parts == [parts[0]];
    } else {
      SplitCount(parts[1..], sep);
      SplitAcross(parts[0], Join(parts[1..], sep), sep);
      OnlyPart(parts[0], sep);
      hide Split;
      assert parts == [parts[0]] + parts[1..];
    }
  }

  /** The value of a run of decimal digits. */
  function Value(s: string): (r: nat)
    requires AllDigits(s)
  {
    if s == "" then 0 else Value(s[..|s| - 1]) * 10 + (s[|s| - 1] as int - '0' as int)
  }

  /** strconv.ParseUint in base 10: digits only, at least one, and in range. */
  function ParseUint(s: string, limit: nat): (r: Option<nat>) {
    if s != "" && AllDigits(s) && Value(s) < limit then Some(Value(s)) else None
  }

  /** Decimal digits of a number, without leading zeros. */
  function Decimal(n: nat): (s: string)
    ensures s != "" && AllDigits(s)
  {
    var last := ['0' + (n % 10) as char];
    if n < 10 then last else Decimal(n / 10) + last
  }

  lemma {:induction false} ValueOfDecimal(n: nat)
    ensures Value(Decimal(n)) == n
  {
    var s := Decimal(n);
    if n < 10 {
      assert s[..|s| - 1] == "";
    } else {
      ValueOfDecimal(n / 10);
      assert s[..|s| - 1] == Decimal(n / 10);
    }
  }
}
