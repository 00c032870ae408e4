/** Hexadecimal text and the digit-swapping of telephony binary coded decimal
    (suci_deconcealing.go). */
module HexText {
  import opened Types
  import opened Text

  /** An error return, and the index panic that Go raises instead of one. */
  datatype Result<+T> = Ok(value: T) | Err | Panic

  // ---------- hexadecimal text ----------

  predicate IsHex(c: char) { IsDigit(c) || 'a' <= c <= 'f' || 'A' <= c <= 'F' }

  lemma HexCharacters(c: char)
    ensures IsDigit(c) <==> c in "0123456789"
    ensures IsHex(c) <==> c in "0123456789abcdefABCDEF"
  {
    assert IsHex(c) ==> c in ['0', '1', '2', '3', '4', '5', '6', '7', '8', '9', 'a', 'b', 'c', 'd', 'e', 'f',
                              'A', 'B', 'C', 'D', 'E', 'F'];
  }

  predicate AllHex(s: string) { forall i | 0 <= i < |s| :: IsHex(s[i]) }

  function Nibble(c: char): (n: nat)
    requires IsHex(c)
    ensures n < 16
  {
    if IsDigit(c) then c as int - '0' as int
    else if 'a' <= c <= 'f' then c as int - 'a' as int + 10
    else c as int - 'A' as int + 10
  }

  function HexDigit(n: nat): (c: char)
    requires n < 16
    ensures IsHex(c) && Nibble(c) == n
  {
    if n < 10 then '0' + n as char else 'a' + (n - 10) as char
  }

  function LowerChar(c: char): (r: char) { if 'A' <= c <= 'F' then c - 'A' + 'a' else c }

  function Lower(s: string): (r: string)
    ensures |r| == |s| && forall i | 0 <= i < |s| :: r[i] == LowerChar(s[i])
  {
    if s == "" then "" else [LowerChar(s[0])] + Lower(s[1..])
  }

  /** hex.EncodeToString. */
  function HexEncode(b: seq<u8>): (r: string) {
    if b == [] then "" else [HexDigit(b[0] / 16), HexDigit(b[0] % 16)] + HexEncode(b[1..])
  }

  function HexByte(a: char, b: char): (r: u8)
    requires IsHex(a) && IsHex(b)
  {
    16 * Nibble(a) + Nibble(b)
  }

  /** hex.DecodeString. */
  function HexDecode(s: string): (r: Option<seq<u8>>)
    ensures r.Some? ==> |s| == 2 * |r.value|
  {
    if s == "" then Some([])
    else if |s| == 1 || !IsHex(s[0]) || !IsHex(s[1]) then None
    else
      var rest := HexDecode(s[2..]);
      if rest.None? then None else Some([HexByte(s[0], s[1])] + rest.value)
  }

  /** Decoding succeeds exactly on an even number of hexadecimal digits. */
  lemma {:induction false} HexDecodeIff(s: string)
    ensures HexDecode(s).Some? <==> |s| % 2 == 0 && AllHex(s)
    decreases |s|
  {
    if |s| < 2 {
    } else {
      HexDecodeIff(s[2..]);
      assert s == [s[0], s[1]] + s[2..];
    }
  }

  lemma {:induction false} DecodeOfEncode(b: seq<u8>)
    ensures HexDecode(HexEncode(b)) == Some(b)
  {
    if b == [] {
    } else {
      DecodeOfEncode(b[1..]);
      var s := HexEncode(b);
      assert s[2..] == HexEncode(b[1..]);
      assert HexByte(s[0], s[1]) == b[0];
      assert b == [b[0]] + b[1..];
    }
  }

  lemma DigitsOfByte(a: char, b: char)
    requires IsHex(a) && IsHex(b)
    ensures HexDigit(HexByte(a, b) / 16) == LowerChar(a) && HexDigit(HexByte(a, b) % 16) == LowerChar(b)
  {}

  lemma {:induction false} EncodeOfDecode(s: string)
    requires HexDecode(s).Some?
    ensures HexEncode(HexDecode(s).value) == Lower(s)
    decreases |s|
  {
    if s == "" {
    } else {
      EncodeOfDecode(s[2..]);
      DigitsOfByte(s[0], s[1]);
      var b := HexDecode(s).value;
      assert b[1..] == HexDecode(s[2..]).value;
      LowerConcat(s[..2], s[2..]);
      assert s == s[..2] + s[2..];
      assert Lower(s[..2]) == [LowerChar(s[0]), LowerChar(s[1])];
    }
  }

  lemma LowerConcat(a: string, b: string)
    ensures Lower(a + b) == Lower(a) + Lower(b)
  {}

  // ---------- telephony binary coded decimal ----------

  function Padded(s: string): (r: string)
    ensures |r| % 2 == 0
  {
    if |s| % 2 == 1 then s + "F" else s
  }

  function Swapped(s: string): (r: string)
    ensures |r| == |s|
  {
    if |s| < 2 then s else [s[1], s[0]] + Swapped(s[2..])
  }

  predicate IsF(c: char) { c == 'F' || c == 'f' }

  function Stripped(s: string): (r: string) {
    if s != "" && IsF(s[|s| - 1]) then s[..|s| - 1] else s
  }

  function TbcdOf(s: string): (r: Result<string>) {
    if s == "" then Panic else Ok(Stripped(Swapped(Padded(s))))
  }

  /** The swapping loop of Tbcd, in place. */
  method SwapPairs(bytes: array<char>, ghost padded: string)
    requires bytes[..] == padded && |padded| % 2 == 0
    modifies bytes
    ensures bytes[..] == Swapped(padded)
  {
    hide Swapped;
    assert bytes[..0] == "" && bytes[0..] == padded;
    var i := 1;
    while i < bytes.Length
      invariant 1 <= i <= bytes.Length + 1 && i % 2 == 1
      invariant Swapped(padded) == bytes[..i - 1] + Swapped(bytes[i - 1..])
    {
      ghost var was := bytes[..];
      bytes[i - 1], bytes[i] := bytes[i], bytes[i - 1];
      SwapOne(was, bytes[..], i - 1);
      assert bytes[..][..i + 1] == bytes[..i + 1] && bytes[..][i + 1..] == bytes[i + 1..];
      assert was[..i - 1] + Swapped(was[i - 1..]) == Swapped(padded);
      i := i + 2;
    }
    assert bytes[i - 1..] == [] && bytes[..i - 1] == bytes[..];
    SwapNothing();
  }

  lemma SwapNothing()
    ensures Swapped("") == ""
  {}

  /** Tbcd: swaps neighbours in a byte buffer. */
  method Tbcd(value: string) returns (r: Result<string>)
    ensures r == TbcdOf(value)
  {
    hide Swapped;
    var padded := value;
    while |padded| % 2 != 0
      invariant padded == value || padded == Padded(value)
      decreases |padded| % 2
    {
      padded := padded + "F";
    }
    assert padded == Padded(value);
    var bytes := new char[|padded|](i requires 0 <= i < |padded| => padded[i]);
    SwapPairs(bytes, padded);
    if bytes.Length == 0 { return Panic; }
    var i := bytes.Length - 1;
    if bytes[i] == 'F' || bytes[i] == 'f' { return Ok(bytes[..i]); }
    return Ok(bytes[..]);
  }

  lemma SwapOne(was: string, now: string, k: nat)
    requires k + 1 < |was| && now == was[k := was[k + 1]][k + 1 := was[k]]
    ensures was[..k] + Swapped(was[k..]) == now[..k + 2] + Swapped(now[k + 2..])
  {
    var pair, rest := [was[k + 1], was[k]], was[k + 2..];
    assert was[k..][2..] == rest && Swapped(was[k..]) == pair + Swapped(rest);
    hide Swapped;
    assert now[k + 2..] == rest;
    assert now[..k + 2] == was[..k] + pair;
    assert was[..k] + (pair + Swapped(rest)) == (was[..k] + pair) + Swapped(rest);
  }

  lemma {:induction false} SwapLower(s: string)
    ensures Swapped(Lower(s)) == Lower(Swapped(s))
    decreases |s|
  {
    if |s| < 2 {
    } else {
      SwapLower(s[2..]);
      assert Lower(s)[2..] == Lower(s[2..]);
      assert Swapped(s)[2..] == Swapped(s[2..]);
    }
  }

  lemma {:induction false} SwapTwice(s: string)
    ensures Swapped(Swapped(s)) == s
    decreases |s|
  {
    if |s| < 2 {
    } else {
      SwapTwice(s[2..]);
      assert Swapped(s)[2..] == Swapped(s[2..]);
      assert s == [s[0], s[1]] + s[2..];
    }
  }

  lemma {:induction false} SwapMembers(s: string)
    ensures AllHex(Swapped(s)) ==> AllHex(s)
    decreases |s|
  {
    if |s| >= 2 && AllHex(Swapped(s)) {
      var t := Swapped(s);
      assert t[2..] == Swapped(s[2..]);
      SwapMembers(s[2..]);
      assert t[0] == s[1] && t[1] == s[0];
      assert s == [s[0], s[1]] + s[2..];
    }
  }

  lemma {:induction false} SwapLast(s: string)
    requires |s| % 2 == 0 && s != ""
    ensures Swapped(s)[|s| - 1] == s[|s| - 2]
    decreases |s|
  {
    if |s| > 2 {
      SwapLast(s[2..]);
      assert Swapped(s)[2..] == Swapped(s[2..]);
    }
  }

  /** Every digit string can be packed. */
  lemma DigitsPack(msin: string)
    requires msin != "" && AllDigits(msin)
    ensures TbcdOf(msin).Ok? && HexDecode(TbcdOf(msin).value).Some?
  {
    hide Swapped, HexDecode;
    var p := Padded(msin);
    assert AllHex(p) && IsDigit(p[|p| - 2]);
    SwapTwice(p);
    SwapMembers(Swapped(p));
    SwapLast(p);
    HexDecodeIff(Swapped(p));
  }

  /** Only the empty text makes Tbcd index before its buffer. */
  lemma UnpackPanicsIff(b: seq<u8>)
    ensures TbcdOf(HexEncode(b)) == Panic <==> b == []
  {}

  lemma {:induction false} EncodeIsHex(b: seq<u8>)
    ensures AllHex(HexEncode(b)) && (b != [] ==> HexEncode(b) != "")
  {
    if b == [] {
    } else {
      EncodeIsHex(b[1..]);
    }
  }

  /** What a subscriber number looks like after it has been packed and unpacked. */
  function Recovered(msin: string): (r: string) {
    if |msin| % 2 == 0 then Stripped(Lower(msin)) else Lower(msin)
  }

  /** Packing into bytes and back. */
  lemma TbcdThroughHex(msin: string)
    requires msin != "" && HexDecode(TbcdOf(msin).value).Some?
    ensures TbcdOf(HexEncode(HexDecode(TbcdOf(msin).value).value)) == Ok(Recovered(msin))
    ensures AllHex(msin)
  {
    hide Swapped, HexDecode, HexEncode, Lower, Recovered;
    var p := Padded(msin);
    var s := Swapped(p);
    var t := TbcdOf(msin).value;
    assert t == s;
    EncodeOfDecode(t);
    HexDecodeIff(t);
    SwapMembers(p);
    assert msin == p[..|msin|];
    SwapLower(s);
    SwapTwice(p);
    StripPadding(msin);
  }

  lemma StripPadding(msin: string)
    requires msin != ""
    ensures Stripped(Lower(Padded(msin))) == Recovered(msin)
  {
    if |msin| % 2 == 1 {
      LowerConcat(msin, "F");
      assert Lower("F") == "f";
      assert Lower(Padded(msin))[..|msin|] == Lower(msin);
    }
  }

  /** The number comes back as it was exactly when it has no capital letter, and no final f at an
      even length; any digit string does. */
  lemma RecoveredIff(msin: string)
    requires msin != "" && AllHex(msin)
    ensures Recovered(msin) == msin <==>
              (forall i | 0 <= i < |msin| :: !('A' <= msin[i] <= 'F')) && (|msin| % 2 == 0 ==> msin[|msin| - 1] != 'f')
    ensures AllDigits(msin) ==> Recovered(msin) == msin
  {
    var low := Lower(msin);
    if forall i | 0 <= i < |msin| :: !('A' <= msin[i] <= 'F') {
      assert low == msin;
    }
    if i :| 0 <= i < |msin| && 'A' <= msin[i] <= 'F' {
      assert low[i] != msin[i];
    }
  }
}
