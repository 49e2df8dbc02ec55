/** The numbers and blanks of an IPv6 text: each reading function of Ipv6Parse takes exactly
the longest stretch of characters of its kind, and gives the number that it spells. */
module Ipv6Lexer {
  import opened Wrappers
  import opened Ipv6Parse

  /** The number that digits spell in a base. */
  function Numeral(s: string, base: nat): nat {
    if s == "" then 0
    else
      var v := HexVal(s[|s| - 1]);
      Numeral(s[..|s| - 1], base) * base + if v >= 0 then v else 0
  }

  predicate IsHex(s: string) {
    forall k :: 0 <= k < |s| ==> HexVal(s[k]) >= 0
  }

  predicate IsDecimal(s: string) {
    forall k :: 0 <= k < |s| ==> '0' <= s[k] <= '9'
  }

  predicate IsBlank(s: string) {
    forall k :: 0 <= k < |s| ==> s[k] == ' ' || s[k] == '\t'
  }

  /** Digits mean what they say: 0 to 9, then a to f in either case, and nothing else. */
  lemma DigitMeans(c: char, v: nat)
    requires v < 16
    ensures HexVal(c) == v <==> c == "0123456789abcdef"[v] || c == "0123456789ABCDEF"[v]
  {
  }

  lemma DigitValues(c: char)
    ensures DecVal(c) == if '0' <= c <= '9' then HexVal(c) else -1
    ensures -1 <= HexVal(c) < 16 && -1 <= DecVal(c) < 10
  {
  }

  // ---------------------------------------------------------------- blanks

  lemma {:induction false} SkipSpacesIs(t: string, i: nat)
    requires i <= |t|
    ensures var j := SkipSpaces(t, i); i <= j <= |t| && IsBlank(t[i..j]) && !IsSpace(At(t, j))
    decreases |t| - i
  {
    if IsSpace(At(t, i)) {
      SkipSpacesIs(t, i + 1);
      var j := SkipSpaces(t, i);
      assert t[i..j] == [t[i]] + t[i + 1..j];
    }
  }

  lemma {:induction false} SkipSpacesTo(t: string, i: nat, j: nat)
    requires i <= j <= |t| && IsBlank(t[i..j]) && !IsSpace(At(t, j))
    ensures SkipSpaces(t, i) == j
    decreases j - i
  {
    if i < j {
      assert t[i..j][0] == t[i] && t[i..j][1..] == t[i + 1..j];
      SkipSpacesTo(t, i + 1, j);
    }
  }

  // ---------------------------------------------------------------- hexadecimal groups

  lemma NumeralStep(s: string, c: char, base: nat)
    requires HexVal(c) >= 0
    ensures Numeral(s + [c], base) == Numeral(s, base) * base + HexVal(c)
  {
    assert (s + [c])[..|s|] == s;
  }

  lemma OneDigit(t: string, i: nat, base: nat)
    requires i < |t| && HexVal(t[i]) >= 0
    ensures Numeral(t[i..i + 1], base) == HexVal(t[i])
  {
    assert t[i..i + 1] == "" + [t[i]];
    NumeralStep("", t[i], base);
  }

  lemma OneMore(t: string, i: nat, j: nat)
    requires i <= j < |t|
    ensures t[i..j + 1] == t[i..j] + [t[j]]
  {
  }

  /** The digits from position i, when those up to k have been read. */
  lemma {:induction false} MoreDigitsIs(t: string, i: nat, k: nat, acc: nat, left: nat)
    requires i <= k <= |t| && IsHex(t[i..k]) && acc == Numeral(t[i..k], 16)
    ensures var (v, j) := MoreDigits(t, k, acc, left);
            && k <= j <= |t| && j <= k + left && IsHex(t[i..j]) && v == Numeral(t[i..j], 16)
            && (j == k + left || HexVal(At(t, j)) < 0)
    decreases left
  {
    hide Numeral;
    if left > 0 && HexVal(At(t, k)) >= 0 {
      OneMore(t, i, k);
      NumeralStep(t[i..k], t[k], 16);
      MoreDigitsIs(t, i, k + 1, acc * 16 + HexVal(t[k]), left - 1);
    }
  }

  /** A group of one to four digits stands at i, up to j. */
  ghost predicate GroupAt(t: string, i: nat, j: nat) {
    i < j <= |t| && j <= i + 4 && IsHex(t[i..j]) && (j == i + 4 || HexVal(At(t, j)) < 0)
  }

  lemma GroupRead(t: string, i: nat)
    requires HexVal(At(t, i)) >= 0
    ensures var (v, j) := MoreDigits(t, i + 1, HexVal(At(t, i)), 3);
            GroupAt(t, i, j) && v == Numeral(t[i..j], 16)
  {
    OneDigit(t, i, 16);
    MoreDigitsIs(t, i, i + 1, HexVal(t[i]), 3);
  }

  lemma GroupAtOnce(t: string, i: nat, j: nat, k: nat)
    requires GroupAt(t, i, j) && GroupAt(t, i, k)
    ensures j == k
  {
    HexChars(t, i, j);
    HexChars(t, i, k);
  }

  lemma HexChars(t: string, i: nat, j: nat)
    requires i <= j <= |t| && IsHex(t[i..j])
    ensures forall n :: i <= n < j ==> HexVal(t[n]) >= 0
  {
    forall n | i <= n < j ensures HexVal(t[n]) >= 0 { assert t[i..j][n - i] == t[n]; }
  }

  // ---------------------------------------------------------------- octets

  /** One to three digits that spell at most 255 stand at i, up to j. */
  ghost predicate OctetAt(t: string, i: nat, j: nat) {
    && i < j <= |t| && j <= i + 3 && IsDecimal(t[i..j]) && Numeral(t[i..j], 10) <= 255
    && (j == i + 3 || DecVal(At(t, j)) < 0)
  }

  lemma ShortNumerals(t: string, i: nat)
    ensures i + 1 <= |t| && DecVal(t[i]) >= 0 ==> Numeral(t[i..i + 1], 10) == DecVal(t[i])
    ensures i + 2 <= |t| && DecVal(t[i]) >= 0 && DecVal(t[i + 1]) >= 0 ==>
              Numeral(t[i..i + 2], 10) == DecVal(t[i]) * 10 + DecVal(t[i + 1])
    ensures i + 3 <= |t| && DecVal(t[i]) >= 0 && DecVal(t[i + 1]) >= 0 && DecVal(t[i + 2]) >= 0 ==>
              Numeral(t[i..i + 3], 10) == (DecVal(t[i]) * 10 + DecVal(t[i + 1])) * 10 + DecVal(t[i + 2])
  {
    hide Numeral;
    if i + 1 <= |t| && DecVal(t[i]) >= 0 {
      OneDigit(t, i, 10);
      if i + 2 <= |t| && DecVal(t[i + 1]) >= 0 {
        OneMore(t, i, i + 1);
        NumeralStep(t[i..i + 1], t[i + 1], 10);
        if i + 3 <= |t| && DecVal(t[i + 2]) >= 0 {
          OneMore(t, i, i + 2);
          NumeralStep(t[i..i + 2], t[i + 2], 10);
        }
      }
    }
  }

  /** An octet is read exactly where one stands, and as the number it spells. */
  lemma OctetExactly(t: string, i: nat, v: nat, j: nat)
    ensures Octet(t, i) == Some((v, j)) <==> OctetAt(t, i, j) && v == Numeral(t[i..j], 10)
  {
    ShortNumerals(t, i);
    hide Numeral;
    if OctetAt(t, i, j) {
      assert forall k :: i <= k < j ==> t[i..j][k - i] == t[k] && DecVal(t[k]) >= 0;
      assert DecVal(t[i]) >= 0;
    }
    if Octet(t, i) == Some((v, j)) {
      assert j <= |t| && forall k :: 0 <= k < j - i ==> t[i..j][k] == t[i + k];
    }
  }

  // ---------------------------------------------------------------- dotted decimals

  /** One to three decimal digits that spell at most 255. */
  predicate IsOctet(s: string) {
    1 <= |s| <= 3 && IsDecimal(s) && Numeral(s, 10) <= 255
  }

  predicate AreOctets(parts: seq<string>) {
    forall k :: 0 <= k < |parts| ==> IsOctet(parts[k])
  }

  function DotText(parts: seq<string>): string {
    if parts == [] then "" else if |parts| == 1 then parts[0] else parts[0] + "." + DotText(parts[1..])
  }

  function OctetValues(parts: seq<string>): (v: seq<nat>)
    ensures |v| == |parts|
  {
    if parts == [] then [] else [Numeral(parts[0], 10)] + OctetValues(parts[1..])
  }

  /** No digit of the last octet is left over at j. */
  predicate OctetEnds(t: string, j: nat, parts: seq<string>) {
    parts != [] && (|parts[|parts| - 1]| == 3 || DecVal(At(t, j)) < 0)
  }

  lemma OctetIs(t: string, i: nat)
    requires Octet(t, i).Some?
    ensures var (v, j) := Octet(t, i).value;
            i < j <= |t| && IsOctet(t[i..j]) && v == Numeral(t[i..j], 10) && (j == i + 3 || DecVal(At(t, j)) < 0)
  {
    var (v, j) := Octet(t, i).value;
    OctetExactly(t, i, v, j);
  }

  lemma OctetTo(t: string, i: nat, j: nat, s: string)
    requires i <= j <= |t| && t[i..j] == s && IsOctet(s) && (|s| == 3 || DecVal(At(t, j)) < 0)
    ensures Octet(t, i) == Some((Numeral(s, 10), j))
  {
    OctetExactly(t, i, Numeral(s, 10), j);
  }

  lemma {:induction false} DottedIs(t: string, i: nat, d: seq<nat>, left: nat) returns (parts: seq<string>)
    requires i <= |t| && left > 0 && Dotted(t, i, d, left).Some?
    ensures var (d', j) := Dotted(t, i, d, left).value;
            && |parts| == left && AreOctets(parts) && i <= j <= |t| && t[i..j] == DotText(parts)
            && d' == d + OctetValues(parts) && OctetEnds(t, j, parts)
    decreases left
  {
    hide Numeral, Octet, IsOctet;
    OctetIs(t, i);
    var (v, k) := Octet(t, i).value;
    var first := t[i..k];
    if left == 1 {
      parts := [first];
      assert parts[1..] == [];
    } else {
      var rest := DottedIs(t, k + 1, d + [v], left - 1);
      parts := [first] + rest;
      assert parts[1..] == rest;
      var j := Dotted(t, i, d, left).value.1;
      assert t[i..j] == first + "." + t[k + 1..j];
      assert d + [v] + OctetValues(rest) == d + ([v] + OctetValues(rest));
    }
  }

  lemma CutAt(t: string, i: nat, j: nat, a: string, c: char, b: string)
    requires i <= j <= |t| && t[i..j] == a + [c] + b
    ensures var k := i + |a|; k < j && t[i..k] == a && t[k] == c && t[k + 1..j] == b
  {
    var k, s := i + |a|, a + [c] + b;
    assert s[..|a|] == a && s[|a|] == c && s[|a| + 1..] == b;
    forall n | 0 <= n < |s| ensures t[i + n] == s[n] { assert t[i..j][n] == t[i + n]; }
  }

  /** The first octet of a dotted decimal, its dot, and the rest. */
  lemma DotHead(t: string, i: nat, parts: seq<string>, j: nat)
    requires i <= j <= |t| && |parts| > 1 && t[i..j] == DotText(parts)
    ensures var k := i + |parts[0]|;
            k < j && t[i..k] == parts[0] && t[k] == '.' && t[k + 1..j] == DotText(parts[1..])
  {
    var first, rest := parts[0], DotText(parts[1..]);
    assert DotText(parts) == first + "." + rest;
    CutAt(t, i, j, first, '.', rest);
  }

  lemma {:induction false} DottedTo(t: string, i: nat, d: seq<nat>, parts: seq<string>, j: nat)
    requires i <= j <= |t| && AreOctets(parts) && t[i..j] == DotText(parts) && OctetEnds(t, j, parts)
    ensures Dotted(t, i, d, |parts|) == Some((d + OctetValues(parts), j))
    decreases |parts|
  {
    hide Numeral, Octet, IsOctet;
    var v := Numeral(parts[0], 10);
    if |parts| == 1 {
      assert parts[1..] == [];
      OctetTo(t, i, j, parts[0]);
      assert OctetValues(parts) == [v];
      assert Dotted(t, i, d, 1) == Some((d + [v], j));
    } else {
      var k, rest := i + |parts[0]|, parts[1..];
      DotHead(t, i, parts, j);
      OctetTo(t, i, k, parts[0]);
      DottedTo(t, k + 1, d + [v], rest, j);
      assert d + [v] + OctetValues(rest) == d + ([v] + OctetValues(rest));
    }
  }

  // ---------------------------------------------------------------- scope and port numbers

  predicate EndsScope(c: char) {
    c == '\0' || c == ']' || IsSpace(c)
  }

  predicate EndsPort(c: char) {
    c == '\0' || IsSpace(c)
  }

  lemma CutDigits(n: nat, d: nat)
    ensures (n % UINT32 * 10 + d) % UINT32 == (n * 10 + d) % UINT32
  {
    var q, r := n / UINT32, n % UINT32;
    assert n * 10 + d == (r * 10 + d) + q * 10 * UINT32;
    CutMultiple(r * 10 + d, q * 10);
  }

  lemma CutMultiple(a: nat, k: nat)
    ensures (a + k * UINT32) % UINT32 == a % UINT32
  {
  }

  lemma NumeralDigit(t: string, i: nat, k: nat)
    requires i <= k < |t| && IsDecimal(t[i..k]) && DecVal(t[k]) >= 0
    ensures IsDecimal(t[i..k + 1]) && Numeral(t[i..k + 1], 10) == Numeral(t[i..k], 10) * 10 + DecVal(t[k])
  {
    OneMore(t, i, k);
    DigitValues(t[k]);
    NumeralStep(t[i..k], t[k], 10);
  }

  lemma {:induction false} ScopeIs(t: string, i: nat, k: nat, acc: nat)
    requires i <= k < |t| && IsDecimal(t[i..k + 1]) && acc == Numeral(t[i..k + 1], 10) % UINT32
    requires ScopeDigits(t, k, acc).Some?
    ensures var (v, j) := ScopeDigits(t, k, acc).value;
            k < j <= |t| && IsDecimal(t[i..j]) && v == Numeral(t[i..j], 10) % UINT32 && EndsScope(At(t, j))
    decreases |t| - k
  {
    hide Numeral;
    var c := At(t, k + 1);
    if !EndsScope(c) {
      NumeralDigit(t, i, k + 1);
      CutDigits(Numeral(t[i..k + 1], 10), DecVal(c));
      ScopeIs(t, i, k + 1, (acc * 10 + DecVal(c)) % UINT32);
    }
  }

  lemma {:induction false} ScopeTo(t: string, i: nat, k: nat, acc: nat, j: nat)
    requires i <= k < j <= |t| && IsDecimal(t[i..j]) && EndsScope(At(t, j))
    requires acc == Numeral(t[i..k + 1], 10) % UINT32
    ensures ScopeDigits(t, k, acc) == Some((Numeral(t[i..j], 10) % UINT32, j))
    decreases j - k
  {
    hide Numeral;
    if k + 1 < j {
      DecimalChars(t, i, j);
      DigitValues(t[k + 1]);
      PartIsDecimal(t, i, k + 1, j);
      NumeralDigit(t, i, k + 1);
      CutDigits(Numeral(t[i..k + 1], 10), DecVal(t[k + 1]));
      ScopeTo(t, i, k + 1, (acc * 10 + DecVal(t[k + 1])) % UINT32, j);
    }
  }

  lemma DecimalChars(t: string, i: nat, j: nat)
    requires i <= j <= |t| && IsDecimal(t[i..j])
    ensures forall n :: i <= n < j ==> DecVal(t[n]) >= 0
  {
    forall n | i <= n < j ensures DecVal(t[n]) >= 0 { assert t[i..j][n - i] == t[n]; }
  }

  lemma PartIsDecimal(t: string, i: nat, k: nat, j: nat)
    requires i <= k <= j <= |t| && IsDecimal(t[i..j])
    ensures IsDecimal(t[i..k])
  {
    DecimalChars(t, i, j);
  }

  lemma {:induction false} PortIs(t: string, i: nat, k: nat, acc: nat)
    requires i <= k < |t| && IsDecimal(t[i..k + 1]) && acc == Numeral(t[i..k + 1], 10) <= 0xFFFF
    requires PortDigits(t, k, acc).Some?
    ensures var (v, j) := PortDigits(t, k, acc).value;
            k < j <= |t| && IsDecimal(t[i..j]) && v == Numeral(t[i..j], 10) <= 0xFFFF && EndsPort(At(t, j))
    decreases |t| - k
  {
    hide Numeral;
    var c := At(t, k + 1);
    if !EndsPort(c) {
      NumeralDigit(t, i, k + 1);
      PortIs(t, i, k + 1, acc * 10 + DecVal(c));
    }
  }

  lemma {:induction false} NumeralGrows(t: string, i: nat, k: nat, j: nat)
    requires i <= k <= j <= |t| && IsDecimal(t[i..j])
    ensures Numeral(t[i..k], 10) <= Numeral(t[i..j], 10)
    decreases j - k
  {
    hide Numeral;
    if k < j {
      PartIsDecimal(t, i, j - 1, j);
      DecimalChars(t, i, j);
      NumeralDigit(t, i, j - 1);
      NumeralGrows(t, i, k, j - 1);
    }
  }

  lemma {:induction false} PortTo(t: string, i: nat, k: nat, acc: nat, j: nat)
    requires i <= k < j <= |t| && IsDecimal(t[i..j]) && EndsPort(At(t, j))
    requires acc == Numeral(t[i..k + 1], 10) && Numeral(t[i..j], 10) <= 0xFFFF
    ensures PortDigits(t, k, acc) == Some((Numeral(t[i..j], 10), j))
    decreases j - k
  {
    hide Numeral;
    if k + 1 < j {
      DecimalChars(t, i, j);
      DigitValues(t[k + 1]);
      PartIsDecimal(t, i, k + 1, j);
      NumeralDigit(t, i, k + 1);
      NumeralGrows(t, i, k + 2, j);
      PortTo(t, i, k + 1, acc * 10 + DecVal(t[k + 1]), j);
    }
  }
}
