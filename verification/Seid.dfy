/** The text key of the rule tables (seid.c): the session and the rule identifier in hexadecimal,
    each cut short by its buffer, one after the other. */
module Seid {
  import opened Types
  import opened HexText

  const SEID_HEX_STR_LEN: nat := 16
  const U32_ID_HEX_STR_LEN: nat := 8
  const NUL: char := '\0'

  /** The conversions %x and %llx. */
  function Hex(n: nat): (s: string)
    ensures s != "" && NUL !in s
  {
    var last := [HexDigit(n % 16)];
    if n < 16 then last else Hex(n / 16) + last
  }

  /** snprintf into a buffer: the first digits that leave room for the terminator. */
  function Printed(n: nat, size: nat): (s: string)
    requires size > 1
    ensures NUL !in s && |s| < size
  {
    var s := Hex(n);
    if |s| < size then s else s[..size - 1]
  }

  function HexKey(seid: u64, id: u32): (s: string)
    ensures |s| < SEID_HEX_STR_LEN + U32_ID_HEX_STR_LEN - 1 && NUL !in s
  {
    Printed(seid, SEID_HEX_STR_LEN) + Printed(id, U32_ID_HEX_STR_LEN)
  }

  /** The C string a buffer holds. */
  ghost predicate Holds(buffer: array<char>, s: string)
    reads buffer
  {
    |s| < buffer.Length && buffer[..|s|] == s && buffer[|s|] == NUL
  }

  /** seid_and_u32id_to_hex_str: strcpy of one number and strcat of the other. */
  method SeidAndU32IdToHexStr(seid: u64, id: u32, buffer: array<char>)
    requires buffer.Length >= SEID_HEX_STR_LEN + U32_ID_HEX_STR_LEN - 1
    modifies buffer
    ensures Holds(buffer, HexKey(seid, id))
  {
    var seidText, idText := Printed(seid, SEID_HEX_STR_LEN), Printed(id, U32_ID_HEX_STR_LEN);
    Store(buffer, 0, seidText);
    Store(buffer, |seidText|, idText);
    assert buffer[..|seidText| + |idText|] == buffer[..|seidText|] + buffer[|seidText|..|seidText| + |idText|];
  }

  method Store(buffer: array<char>, at: nat, s: string)
    requires at + |s| < buffer.Length
    modifies buffer
    ensures buffer[..at] == old(buffer[..at])
    ensures buffer[at..at + |s|] == s && buffer[at + |s|] == NUL
  {
    forall i | 0 <= i < |s| { buffer[at + i] := s[i]; }
    buffer[at + |s|] := NUL;
  }

  // ---------- what the key tells apart ----------

  /** The number whose digits survive a buffer that is at most one digit too short. */
  function Shown(n: nat, bound: nat): (r: nat) { if n < bound then n else n / 16 }

  const SEID_BOUND: nat := 0x1000_0000_0000_0000
  const ID_BOUND: nat := 0x1000_0000

  function Power16(k: nat): (p: nat)
    ensures p > 0
  {
    if k == 0 then 1 else 16 * Power16(k - 1)
  }

  lemma {:induction false} HexLength(n: nat, k: nat)
    requires k > 0
    ensures |Hex(n)| <= k <==> n < Power16(k)
    decreases k
  {
    if k == 1 {
      assert Power16(1) == 16 * Power16(0);
      if n >= 16 { assert |Hex(n)| == |Hex(n / 16)| + 1; }
    } else if n >= 16 {
      HexLength(n / 16, k - 1);
    } else {
      assert Power16(k) == 16 * Power16(k - 1);
    }
  }

  lemma {:induction false} HexInjective(a: nat, b: nat)
    requires Hex(a) == Hex(b)
    ensures a == b
  {
    assert HexDigit(a % 16) == Hex(a)[|Hex(a)| - 1] == HexDigit(b % 16);
    if a >= 16 && b >= 16 {
      assert Hex(a)[..|Hex(a)| - 1] == Hex(a / 16);
      assert Hex(b)[..|Hex(b)| - 1] == Hex(b / 16);
      HexInjective(a / 16, b / 16);
    }
  }

  lemma PrintedIsShown(n: nat, size: nat)
    requires size > 1 && n < Power16(size)
    ensures Printed(n, size) == Hex(Shown(n, Power16(size - 1)))
  {
    HexLength(n, size - 1);
    HexLength(n, size);
    if |Hex(n)| == size { assert Hex(n)[..size - 1] == Hex(n / 16); }
  }

  lemma Bounds()
    ensures Power16(15) == SEID_BOUND && Power16(16) == TWO64
    ensures Power16(7) == ID_BOUND && Power16(8) == 0x1_0000_0000
  {
    assert Power16(4) == 0x1_0000;
    assert Power16(7) == 0x1000_0000;
    assert Power16(8) == 0x1_0000_0000;
    assert Power16(12) == 0x1_0000_0000_0000;
    assert Power16(15) == 0x1000_0000_0000_0000;
  }

  lemma KeyParts(seid: u64, id: u32)
    ensures HexKey(seid, id) == Hex(Shown(seid, SEID_BOUND)) + Hex(Shown(id, ID_BOUND))
  {
    Bounds();
    PrintedIsShown(seid, SEID_HEX_STR_LEN);
    PrintedIsShown(id, U32_ID_HEX_STR_LEN);
  }

  /** n in exactly k digits. */
  function Digits(n: nat, k: nat): (s: string)
    ensures |s| == k
  {
    if k == 0 then "" else Digits(n / 16, k - 1) + [HexDigit(n % 16)]
  }

  function Width(n: nat): (k: nat)
    ensures k > 0
  {
    |Hex(n)|
  }

  lemma {:induction false} HexIsDigits(n: nat)
    ensures Hex(n) == Digits(n, Width(n)) && n < Power16(Width(n))
  {
    HexLength(n, Width(n));
    if n < 16 {
      assert Digits(n, 1) == Digits(n / 16, 0) + [HexDigit(n % 16)];
    } else {
      HexIsDigits(n / 16);
      assert Width(n) == Width(n / 16) + 1;
    }
  }

  lemma {:induction false} DigitsInjective(a: nat, b: nat, k: nat)
    requires a < Power16(k) && b < Power16(k) && Digits(a, k) == Digits(b, k)
    ensures a == b
    decreases k
  {
    if k == 0 {
      assert Power16(0) == 1;
    } else {
      assert Digits(a, k)[..k - 1] == Digits(a / 16, k - 1) && Digits(b, k)[..k - 1] == Digits(b / 16, k - 1);
      assert HexDigit(a % 16) == Digits(a, k)[k - 1] == HexDigit(b % 16);
      DigitsInjective(a / 16, b / 16, k - 1);
    }
  }

  lemma {:induction false} DigitsJoin(a: nat, p: nat, b: nat, q: nat)
    requires b < Power16(q)
    ensures Digits(a, p) + Digits(b, q) == Digits(a * Power16(q) + b, p + q)
    decreases q
  {
    hide Power16, Digits, HexDigit;
    PowerStep(q);
    DigitsStep(b, q);
    if q == 0 {
      assert Digits(a, p) + "" == Digits(a, p);
    } else {
      Times16(a, Power16(q - 1), b);
      DigitsJoin(a, p, b / 16, q - 1);
      DigitsStep(a * Power16(q) + b, p + q);
      Concat(Digits(a, p), Digits(b / 16, q - 1), [HexDigit(b % 16)]);
    }
  }

  lemma DigitsStep(n: nat, k: nat)
    ensures Digits(n, k) == if k == 0 then "" else Digits(n / 16, k - 1) + [HexDigit(n % 16)]
  {}

  lemma Concat(a: string, b: string, c: string)
    ensures a + (b + c) == (a + b) + c
  {}

  lemma PowerStep(k: nat)
    ensures Power16(k) == if k == 0 then 1 else 16 * Power16(k - 1)
  {}

  lemma MulMono(a: nat, b: nat, p: nat)
    requires a <= b
    ensures a * p <= b * p
  {}

  lemma Spread(a: int, b: int, p: int)
    ensures (a + b) * p == a * p + b * p
  {}

  lemma Regroup(a: int, x: int, p: int)
    ensures a * (x * p) == (a * x) * p
  {}

  lemma Times16(a: nat, x: nat, b: nat)
    ensures var n := a * (16 * x) + b; n / 16 == a * x + b / 16 && n % 16 == b % 16
  {
    assert a * (16 * x) == 16 * (a * x);
  }

  lemma JoinBound(a: nat, p: nat, b: nat, q: nat)
    requires a < Power16(p) && b < Power16(q)
    ensures a * Power16(q) + b < Power16(p + q)
  {
    hide Power16;
    PowerSum(p, q);
    Spread(a, 1, Power16(q));
    MulMono(a + 1, Power16(p), Power16(q));
  }

  lemma {:induction false} PowerSum(p: nat, q: nat)
    ensures Power16(p + q) == Power16(p) * Power16(q)
    decreases q
  {
    if q == 0 {
      assert Power16(0) == 1;
    } else {
      PowerSum(p, q - 1);
      assert Power16(q) == 16 * Power16(q - 1) && Power16(p + q) == 16 * Power16(p + q - 1);
      assert Power16(p) * (16 * Power16(q - 1)) == 16 * (Power16(p) * Power16(q - 1));
    }
  }

  /** A key is one number of a certain width. */
  lemma KeyIsNumber(seid: u64, id: u32)
    ensures var s, i := Shown(seid, SEID_BOUND), Shown(id, ID_BOUND);
            && HexKey(seid, id) == Digits(s * Power16(Width(i)) + i, Width(s) + Width(i))
            && s * Power16(Width(i)) + i < Power16(Width(s) + Width(i))
  {
    hide Power16, Shown, Width;
    var s, i := Shown(seid, SEID_BOUND), Shown(id, ID_BOUND);
    KeyParts(seid, id);
    HexIsDigits(s);
    HexIsDigits(i);
    DigitsJoin(s, Width(s), i, Width(i));
    JoinBound(s, Width(s), i, Width(i));
  }

  /** Exactly when two rules have the same key: the shown numbers, written one after the other,
      are equally wide and make the same number. */
  lemma KeysEqualIff(seid1: u64, id1: u32, seid2: u64, id2: u32)
    ensures var s, i, t, j := Shown(seid1, SEID_BOUND), Shown(id1, ID_BOUND),
                              Shown(seid2, SEID_BOUND), Shown(id2, ID_BOUND);
            HexKey(seid1, id1) == HexKey(seid2, id2) <==>
              && Width(s) + Width(i) == Width(t) + Width(j)
              && s * Power16(Width(i)) + i == t * Power16(Width(j)) + j
  {
    hide Power16, Shown, Width, HexKey;
    KeyIsNumber(seid1, id1);
    KeyIsNumber(seid2, id2);
    var s, i, t, j := Shown(seid1, SEID_BOUND), Shown(id1, ID_BOUND), Shown(seid2, SEID_BOUND), Shown(id2, ID_BOUND);
    if HexKey(seid1, id1) == HexKey(seid2, id2) {
      DigitsInjective(s * Power16(Width(i)) + i, t * Power16(Width(j)) + j, Width(s) + Width(i));
    }
  }

  /** Seen from the one with the longer session part: it has taken the leading digits of the
      other's identifier, and its own identifier is the rest, which must not start with a zero. */
  lemma KeysMeetIff(seid1: u64, id1: u32, seid2: u64, id2: u32)
    requires Width(Shown(seid1, SEID_BOUND)) <= Width(Shown(seid2, SEID_BOUND))
    ensures var s, i, t, j := Shown(seid1, SEID_BOUND), Shown(id1, ID_BOUND),
                              Shown(seid2, SEID_BOUND), Shown(id2, ID_BOUND);
            var d := Width(t) - Width(s); var e := Width(i) - d;
            HexKey(seid1, id1) == HexKey(seid2, id2) <==>
              e >= 1 && Width(j) == e && t == s * Power16(d) + i / Power16(e) && j == i % Power16(e)
  {
    KeysEqualIff(seid1, id1, seid2, id2);
    var s, i, t, j := Shown(seid1, SEID_BOUND), Shown(id1, ID_BOUND), Shown(seid2, SEID_BOUND), Shown(id2, ID_BOUND);
    var d := Width(t) - Width(s);
    var e := Width(i) - d;
    HexIsDigits(j);
    hide Shown, Width, HexKey;
    if e >= 1 && Width(j) == e { MeetSums(s, i, t, j, d, e); }
  }

  lemma MeetSums(s: nat, i: nat, t: nat, j: nat, d: nat, e: nat)
    requires j < Power16(e)
    ensures s * Power16(d + e) + i == t * Power16(e) + j <==>
              t == s * Power16(d) + i / Power16(e) && j == i % Power16(e)
  {
    hide Power16;
    PowerSum(d, e);
    var p, q, r := Power16(e), i / Power16(e), i % Power16(e);
    assert i == q * p + r;
    Regroup(s, Power16(d), p);
    Spread(s * Power16(d), q, p);
    QuotientUnique(s * Power16(d) + q, r, t, j, p);
  }

  lemma QuotientUnique(q: int, r: nat, t: int, j: nat, p: nat)
    requires r < p && j < p
    ensures q * p + r == t * p + j <==> q == t && r == j
  {
    if q < t {
      Spread(q, t - q, p);
      MulMono(1, t - q, p);
    } else if t < q {
      Spread(t, q - t, p);
      MulMono(1, q - t, p);
    }
  }

  /** With equally long session parts the keys agree exactly when both numbers do, up to the
      digit a full-length number loses. */
  lemma KeysOfEqualWidth(seid1: u64, id1: u32, seid2: u64, id2: u32)
    requires Width(Shown(seid1, SEID_BOUND)) == Width(Shown(seid2, SEID_BOUND))
    ensures HexKey(seid1, id1) == HexKey(seid2, id2) <==>
              Shown(seid1, SEID_BOUND) == Shown(seid2, SEID_BOUND) && Shown(id1, ID_BOUND) == Shown(id2, ID_BOUND)
  {
    KeyParts(seid1, id1);
    KeyParts(seid2, id2);
    var a, b := Hex(Shown(seid1, SEID_BOUND)), Hex(Shown(id1, ID_BOUND));
    var c, d := Hex(Shown(seid2, SEID_BOUND)), Hex(Shown(id2, ID_BOUND));
    if a + b == c + d {
      assert a == (a + b)[..|a|] && c == (c + d)[..|c|] && b == (a + b)[|a|..] && d == (c + d)[|c|..];
      HexInjective(Shown(seid1, SEID_BOUND), Shown(seid2, SEID_BOUND));
      HexInjective(Shown(id1, ID_BOUND), Shown(id2, ID_BOUND));
    }
  }

  /** Nothing marks where one number ends: the key does not name a rule, and every
      table lookup has to compare both numbers. */
  lemma KeyAmbiguous()
    ensures HexKey(0x1, 0x23) == HexKey(0x12, 0x3)
    ensures HexKey(0x1, 0x1000_0000) == HexKey(0x1, 0x1000_000F)
  {
    assert Hex(0x12) == Hex(0x1) + Hex(0x2);
    assert Hex(0x23) == Hex(0x2) + Hex(0x3);
    KeyParts(0x1, 0x23);
    KeyParts(0x12, 0x3);
    assert Hex(0x1) + (Hex(0x2) + Hex(0x3)) == (Hex(0x1) + Hex(0x2)) + Hex(0x3);
    KeyParts(0x1, 0x1000_0000);
    KeyParts(0x1, 0x1000_000F);
  }
}
