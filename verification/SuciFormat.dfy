/** The textual identity read against the regular expression it is given by
    (suci_deconcealing.go): the formats character by character, and the network-access kind. */
module SuciFormat {
  import opened Types
  import opened Text
  import opened HexText
  import opened Suci

  predicate Digit(c: char) { c in "0123456789" }

  /** The alternatives for a public key number: one or two digits, or 100 to 255. */
  predicate KeyIdPattern(s: string) {
    || (|s| == 1 && Digit(s[0]))
    || (|s| == 2 && Digit(s[0]) && Digit(s[1]))
    || (|s| == 3 && s[0] == '1' && Digit(s[1]) && Digit(s[2]))
    || (|s| == 3 && s[0] == '2' && s[1] in "01234" && Digit(s[2]))
    || (|s| == 3 && s[0] == '2' && s[1] == '5' && s[2] in "012345")
  }

  lemma DigitIs(c: char)
    ensures Digit(c) <==> IsDigit(c)
  {
    HexCharacters(c);
  }

  lemma ValueOfThree(s: string)
    requires |s| == 3 && AllDigits(s)
    ensures Value(s) == 100 * (s[0] as int - '0' as int) + 10 * (s[1] as int - '0' as int) + (s[2] as int - '0' as int)
  {
    var t := s[..2];
    var u := t[..1];
    assert u[..0] == "" && Value("") == 0;
    assert Value(u) == u[0] as int - '0' as int;
    assert Value(t) == Value(u) * 10 + (t[1] as int - '0' as int);
  }

  lemma UpTo(c: char)
    ensures c in "01234" <==> '0' <= c <= '4'
    ensures c in "012345" <==> '0' <= c <= '5'
  {
    assert c in "01234" <==> c in ['0', '1', '2', '3', '4'];
    assert c in "012345" <==> c in ['0', '1', '2', '3', '4', '5'];
  }

  /** A public key number is what the pattern allows. */
  lemma KeyIdIff(s: string)
    ensures IsKeyId(s) <==> KeyIdPattern(s)
  {
    forall i | 0 <= i < |s| ensures Digit(s[i]) <==> IsDigit(s[i]) { DigitIs(s[i]); }
    hide Digit, Value;
    if |s| == 3 {
      UpTo(s[1]);
      UpTo(s[2]);
      if AllDigits(s) { ValueOfThree(s); }
    }
  }

  /** The other formats: three digits, two or three, one to four; a scheme from 0 to 2; and hexadecimal
      digits, at least one. */
  lemma FormatsAre(s: string)
    ensures IsMcc(s) <==> |s| == 3 && forall i | 0 <= i < |s| :: s[i] in "0123456789"
    ensures IsMnc(s) <==> (|s| == 2 || |s| == 3) && forall i | 0 <= i < |s| :: s[i] in "0123456789"
    ensures IsRoutingIndicator(s) <==> |s| in {1, 2, 3, 4} && forall i | 0 <= i < |s| :: s[i] in "0123456789"
    ensures IsScheme(s) <==> |s| == 1 && (s[0] == '0' || s[0] == '1' || s[0] == '2')
    ensures IsOutput(s) <==> |s| > 0 && forall i | 0 <= i < |s| :: s[i] in "0123456789abcdefABCDEF"
  {
    forall i | 0 <= i < |s|
      ensures s[i] in "0123456789" <==> IsDigit(s[i])
      ensures s[i] in "0123456789abcdefABCDEF" <==> IsHex(s[i])
    {
      HexCharacters(s[i]);
    }
    if |s| == 1 { assert s == [s[0]]; }
  }

  // ---------- the network-access kind ----------

  /** x is the reading of a text of this kind: any name without a line break, separators included,
      and four fields behind it. */
  predicate NaiSuci(x: SuciText, name: string) {
    && '\n' !in name
    && IsRoutingIndicator(x.routingIndicator) && IsScheme(x.protectionScheme)
    && IsKeyId(x.publicKeyID) && IsOutput(x.schemeOutput)
    && x.supiType == "1-" + name && x.homeNetworkId == x.supiType && x.mcc == "" && x.mnc == ""
    && x.raw == Join(["suci", "1", name, x.routingIndicator, x.protectionScheme, x.publicKeyID, x.schemeOutput], '-')
  }

  lemma {:induction false} JoinConcat(a: seq<string>, b: seq<string>, sep: char)
    requires a != [] && b != []
    ensures Join(a + b, sep) == Join(a, sep) + [sep] + Join(b, sep)
  {
    assert (a + b)[1..] == a[1..] + b;
    if |a| == 1 {
      assert a[1..] + b == b;
    } else {
      JoinConcat(a[1..], b, sep);
    }
  }

  /** A middle part may be joined before or after. */
  lemma JoinMiddle(a: seq<string>, middle: seq<string>, b: seq<string>, sep: char)
    requires a != [] && middle != [] && b != []
    ensures Join(a + middle + b, sep) == Join(a + [Join(middle, sep)] + b, sep)
  {
    JoinConcat(a, middle, sep);
    JoinConcat(a + middle, b, sep);
    JoinConcat(a, [Join(middle, sep)], sep);
    JoinConcat(a + [Join(middle, sep)], b, sep);
  }

  lemma {:induction false} JoinMembers(parts: seq<string>, sep: char, c: char)
    requires parts != [] && c != sep
    ensures c in Join(parts, sep) <==> exists i | 0 <= i < |parts| :: c in parts[i]
  {
    if |parts| == 1 {
    } else {
      JoinMembers(parts[1..], sep, c);
      assert Join(parts, sep) == parts[0] + [sep] + Join(parts[1..], sep);
      if c in Join(parts[1..], sep) {
        var i :| 0 <= i < |parts[1..]| && c in parts[1..][i];
        assert c in parts[i + 1];
      }
      if i :| 0 <= i < |parts| && c in parts[i] && i > 0 {
        assert c in parts[1..][i - 1];
      }
    }
  }

  lemma NoDashes(x: SuciText)
    requires IsRoutingIndicator(x.routingIndicator) && IsScheme(x.protectionScheme)
    requires IsKeyId(x.publicKeyID) && IsOutput(x.schemeOutput)
    ensures '-' !in x.routingIndicator && '-' !in x.protectionScheme && '-' !in x.publicKeyID && '-' !in x.schemeOutput
  {}

  /** The fields of a text of the kind. */
  lemma NaiFields(x: SuciText, name: string)
    requires NaiSuci(x, name)
    ensures Split(x.raw, '-') ==
              ["suci", "1"] + Split(name, '-') +
              [x.routingIndicator, x.protectionScheme, x.publicKeyID, x.schemeOutput]
  {
    var front, back := ["suci", "1"], [x.routingIndicator, x.protectionScheme, x.publicKeyID, x.schemeOutput];
    var middle := Split(name, '-');
    NoDashes(x);
    hide Split, Join, IsRoutingIndicator, IsScheme, IsKeyId, IsOutput;
    JoinOfSplit(name, '-');
    JoinMiddle(front, middle, back, '-');
    assert front + [name] + back ==
           ["suci", "1", name, x.routingIndicator, x.protectionScheme, x.publicKeyID, x.schemeOutput];
    SplitOfJoin(front + middle + back, '-');
  }

  /** A well-formed text of the kind parses as what it says. */
  lemma NaiParses(x: SuciText, name: string)
    requires NaiSuci(x, name)
    ensures ParseSuci(x.raw) == Some(x)
  {
    NaiFields(x, name);
    var middle, back := Split(name, '-'), [x.routingIndicator, x.protectionScheme, x.publicKeyID, x.schemeOutput];
    JoinOfSplit(name, '-');
    JoinMembers(middle, '-', '\n');
    hide Split, Join, IsRoutingIndicator, IsScheme, IsKeyId, IsOutput;
    var f := Split(x.raw, '-');
    var n := |f|;
    assert f == ["suci", "1"] + middle + back;
    assert f[0] == "suci" && f[1] == "1" && f[2..n - 4] == middle;
    assert f[n - 4..] == back;
    assert f[n - 4] == back[0] && f[n - 3] == back[1] && f[n - 2] == back[2] && f[n - 1] == back[3];
    forall p | p in f[2..n - 4] ensures '\n' !in p {
      var i :| 0 <= i < |middle| && middle[i] == p;
    }
  }

  /** And whatever parses without a country code is one. */
  lemma ParsedNai(x: SuciText) returns (name: string)
    requires ParseSuci(x.raw) == Some(x) && x.mcc == ""
    ensures NaiSuci(x, name)
  {
    hide Split, Join;
    var f := Split(x.raw, '-');
    var n := |f|;
    JoinOfSplit(x.raw, '-');
    var front, middle, back := f[..2], f[2..n - 4], f[n - 4..];
    assert f == front + middle + back;
    name := Join(middle, '-');
    JoinMiddle(front, middle, back, '-');
    assert front + [name] + back ==
           ["suci", "1", name, x.routingIndicator, x.protectionScheme, x.publicKeyID, x.schemeOutput];
    JoinMembers(middle, '-', '\n');
    forall i | 0 <= i < |middle| ensures '\n' !in middle[i] { assert middle[i] in middle; }
  }

  /** Parsing and formatting are inverse on this kind too. */
  lemma ParseNaiIff(x: SuciText)
    ensures (exists name :: NaiSuci(x, name)) <==> ParseSuci(x.raw) == Some(x) && x.mcc == ""
  {
    hide ParseSuci, NaiSuci;
    if name :| NaiSuci(x, name) {
      NaiParses(x, name);
      NoCode(x, name);
    }
    if ParseSuci(x.raw) == Some(x) && x.mcc == "" {
      var name := ParsedNai(x);
    }
  }

  lemma NoCode(x: SuciText, name: string)
    requires NaiSuci(x, name)
    ensures x.mcc == ""
  {}

  /** ToSupi on anything but a subscriber-number identity: what does not parse goes through as it is
      if it starts with one of the two plain prefixes, and the rest is refused. */
  lemma OtherIdentities(c: Crypto, suci: string, profiles: seq<HomeNetworkPrivateKey>)
    ensures ParseSuci(suci).None? ==>
              ToSupi(c, suci, profiles) ==
              if (|suci| >= 5 && suci[..5] == "imsi-") || (|suci| >= 4 && suci[..4] == "nai-") then Ok(suci) else Err
    ensures ParseSuci(suci).Some? && ParseSuci(suci).value.mcc == "" ==> ToSupi(c, suci, profiles) == Err
  {
    if ParseSuci(suci).Some? && ParseSuci(suci).value.mcc == "" {
      var x := ParseSuci(suci).value;
      var name := ParsedNai(x);
      assert x.supiType[0] == '1';
    }
    hide ParseSuci;
  }
}
