/** What base64 texts mean: which texts decode, to which bytes, and how the encoder breaks
lines. */
module Base64Text {
  import opened Wrappers
  import opened Base64
  import opened Base64Decode
  import opened Texts

  // ---------------------------------------------------------------- the digits of a text

  /** The letters of a text, in order. */
  function Letters(text: string): string {
    if text == "" then ""
    else (if IsLetter(text[0]) then [text[0]] else "") + Letters(text[1..])
  }

  /** The letters that digits are written with. */
  function Spelled(digits: seq<nat>): (s: string)
    requires AreDigits(digits)
    ensures |s| == |digits|
  {
    seq(|digits|, i requires 0 <= i < |digits| => Char64(digits[i]))
  }

  /** The text ends at n: at its length, its padding or a terminator. */
  predicate EndsAt(text: string, n: nat) {
    n <= |text| && (forall i :: 0 <= i < n ==> !IsEnd(text[i])) && (n < |text| ==> IsEnd(text[n]))
  }

  /** A character that strict decoding refuses. */
  predicate IsForeign(c: char) {
    !IsLetter(c) && !IsGap(c)
  }

  lemma SpelledStep(v: nat, digits: seq<nat>)
    requires v < 64 && AreDigits(digits)
    ensures AreDigits([v] + digits) && Spelled([v] + digits) == [Char64(v)] + Spelled(digits)
  {
    hide Char64;
  }

  /** A text decodes unless decoding is strict and a foreign character stands before its end; its
  digits are then those of its letters before the end. */
  lemma {:induction false} SextetsExactly(text: string, n: nat, lenient: bool)
    requires EndsAt(text, n)
    ensures var s := Sextets(text, lenient);
            && (s.None? <==> !lenient && exists i :: 0 <= i < n && IsForeign(text[i]))
            && (s.Some? ==> AreDigits(s.value) && Spelled(s.value) == Letters(text[..n]))
    decreases |text|
  {
    hide Char64, IsLetter, IsGap, IsEnd;
    if text != "" { ClassifyExactly(text[0], lenient); }
    if n > 0 {
      assert EndsAt(text[1..], n - 1);
      SextetsExactly(text[1..], n - 1, lenient);
      assert text[..n][1..] == text[1..][..n - 1];
      ForeignLater(text, n);
      var rest := Sextets(text[1..], lenient);
      if IsLetter(text[0]) && rest.Some? { SpelledStep(Classify(text[0], lenient).value, rest.value); }
      assert "" + Letters(text[1..][..n - 1]) == Letters(text[1..][..n - 1]);
    }
  }

  /** Reading stops at n: at the end of the text, or before a foreign character. */
  predicate StopsAt(text: string, n: nat, lenient: bool) {
    && n <= |text| && (forall i :: 0 <= i < n ==> !IsEnd(text[i]) && (lenient || !IsForeign(text[i])))
    && (n < |text| ==> IsEnd(text[n]) || (!lenient && IsForeign(text[n])))
  }

  lemma {:induction false} DigitsExactly(text: string, n: nat, lenient: bool)
    requires StopsAt(text, n, lenient)
    ensures var s := DigitsBefore(text, lenient); AreDigits(s) && Spelled(s) == Letters(text[..n])
    decreases |text|
  {
    hide Char64, IsLetter, IsGap, IsEnd;
    if text != "" { ClassifyExactly(text[0], lenient); }
    if n > 0 {
      assert StopsAt(text[1..], n - 1, lenient);
      DigitsExactly(text[1..], n - 1, lenient);
      assert text[..n][1..] == text[1..][..n - 1];
      if IsLetter(text[0]) { SpelledStep(Classify(text[0], lenient).value, DigitsBefore(text[1..], lenient)); }
      assert "" + Letters(text[1..][..n - 1]) == Letters(text[1..][..n - 1]);
    }
  }

  /** What is written without regard to the room: the bytes of the letters up to where reading
  stops, and of whole groups only when a foreign character stopped it. */
  lemma OutputExactly(text: string, n: nat, lenient: bool, s: seq<nat>)
    requires StopsAt(text, n, lenient) && AreDigits(s) && Spelled(s) == Letters(text[..n])
    ensures Output(text, lenient) == Pack(if n < |text| && !IsEnd(text[n]) then s[..|s| - |s| % 4] else s)
  {
    hide Pack, Sextets, DigitsBefore, Letters, Spelled, StopsAt, IsEnd, Classify, AreDigits;
    DigitsExactly(text, n, lenient);
    SameDigits(s, DigitsBefore(text, lenient));
    StopIsEnd(text, n, lenient);
  }

  lemma SameDigits(a: seq<nat>, b: seq<nat>)
    requires AreDigits(a) && AreDigits(b) && Spelled(a) == Spelled(b)
    ensures a == b
  {
    hide Char64;
    assert |a| == |b|;
    forall i | 0 <= i < |a| ensures a[i] == b[i] {
      assert Spelled(a)[i] == Spelled(b)[i];
      CharCode(a[i]);
      CharCode(b[i]);
    }
  }

  lemma {:induction false} StopIsEnd(text: string, n: nat, lenient: bool)
    requires StopsAt(text, n, lenient)
    ensures Sextets(text, lenient).None? <==> n < |text| && !IsEnd(text[n])
    decreases |text|
  {
    hide IsLetter, IsGap, IsEnd;
    if text != "" { ClassifyExactly(text[0], lenient); }
    if n > 0 {
      assert StopsAt(text[1..], n - 1, lenient);
      StopIsEnd(text[1..], n - 1, lenient);
    }
  }

  lemma ForeignLater(text: string, n: nat)
    requires 0 < n <= |text|
    ensures (exists i :: 0 <= i < n && IsForeign(text[i])) <==>
            IsForeign(text[0]) || exists i :: 0 <= i < n - 1 && IsForeign(text[1..][i])
  {
    if i :| 0 < i < n && IsForeign(text[i]) { assert IsForeign(text[1..][i - 1]); }
    if i :| 0 <= i < n - 1 && IsForeign(text[1..][i]) { assert IsForeign(text[i + 1]); }
  }

  // ---------------------------------------------------------------- the bytes of digits

  /** Each group of four digits holds three bytes, most significant bits first. */
  lemma {:induction false} PackAt(s: seq<nat>, k: nat)
    requires AreDigits(s)
    ensures |Pack(s)| == |s| * 3 / 4
    ensures 4 * k + 1 < |s| ==> Pack(s)[3 * k] == s[4 * k] * 4 + s[4 * k + 1] / 16
    ensures 4 * k + 2 < |s| ==> Pack(s)[3 * k + 1] == s[4 * k + 1] % 16 * 16 + s[4 * k + 2] / 4
    ensures 4 * k + 3 < |s| ==> Pack(s)[3 * k + 2] == s[4 * k + 2] % 4 * 64 + s[4 * k + 3]
    decreases k
  {
    PackLength(s);
    if k == 0 {
      FirstGroup(s);
    } else if |s| >= 4 {
      hide ThreeBytes, Bits24;
      PackAt(s[4..], k - 1);
    }
  }

  lemma FirstGroup(s: seq<nat>)
    requires AreDigits(s)
    ensures 1 < |s| ==> |Pack(s)| > 0 && Pack(s)[0] == s[0] * 4 + s[1] / 16
    ensures 2 < |s| ==> |Pack(s)| > 1 && Pack(s)[1] == s[1] % 16 * 16 + s[2] / 4
    ensures 3 < |s| ==> |Pack(s)| > 2 && Pack(s)[2] == s[2] % 4 * 64 + s[3]
  {
    var q := if |s| >= 4 then s[..4] else s;
    if |q| > 1 {
      BytesOfBits(q[0], q[1], if |q| > 2 then q[2] else 0, if |q| > 3 then q[3] else 0);
    }
  }

  lemma BytesOfBits(a: nat, b: nat, c: nat, d: nat)
    requires a < 64 && b < 64 && c < 64 && d < 64
    ensures ThreeBytes(a * 0x40000 + b * 0x1000 + c * 0x40 + d) == [a * 4 + b / 16, b % 16 * 16 + c / 4, c % 4 * 64 + d]
  {
    var v := a * 0x40000 + b * 0x1000 + c * 0x40 + d;
    var x, y, z := a * 4 + b / 16, b % 16 * 16 + c / 4, c % 4 * 64 + d;
    assert v == x * 0x10000 + y * 0x100 + z;
    BytesBack(x, y, z);
  }

  /** The four characters that the encoder writes for up to three bytes. */
  lemma GroupExactly(g: seq<Byte>)
    requires 1 <= |g| <= 3
    ensures var a, b, c := g[0] as int, if |g| > 1 then g[1] as int else 0, if |g| > 2 then g[2] as int else 0;
            GroupText(g) == [Char64(a / 4), Char64(a % 4 * 16 + b / 16),
                             if |g| > 1 then Char64(b % 16 * 4 + c / 64) else '=',
                             if |g| > 2 then Char64(c % 64) else '=']
  {
    hide Char64;
    DigitsOfBytes(g[0], if |g| > 1 then g[1] else 0, if |g| > 2 then g[2] else 0);
  }

  lemma DigitsOfBytes(a: Byte, b: Byte, c: Byte)
    ensures Digits(a, b, c)
         == [a as int / 4, a as int % 4 * 16 + b as int / 16, b as int % 16 * 4 + c as int / 64, c as int % 64]
  {
    var v: nat := a as int * 0x10000 + b as int * 0x100 + c;
    assert v == a as int / 4 * 0x40000 + (a as int % 4 * 16 + b as int / 16) * 0x1000
                + (b as int % 16 * 4 + c as int / 64) * 0x40 + c as int % 64;
    FourBack(a as int / 4, a as int % 4 * 16 + b as int / 16, b as int % 16 * 4 + c as int / 64, c as int % 64, v);
  }

  lemma FourBack(p: nat, q: nat, r: nat, s: nat, v: nat)
    requires p < 64 && q < 64 && r < 64 && s < 64 && v == p * 0x40000 + q * 0x1000 + r * 0x40 + s
    ensures [v / 0x40000 % 64, v / 0x1000 % 64, v / 0x40 % 64, v % 64] == [p, q, r, s]
  {
    assert v / 0x40 == p * 0x1000 + q * 0x40 + r;
    assert v / 0x1000 == p * 0x40 + q;
    assert v / 0x40000 == p;
  }

  // ---------------------------------------------------------------- lines

  lemma EncodedOne(data: seq<Byte>, lineBreak: string, left: nat)
    requires data != [] && left > 0
    ensures Encoded(data, lineBreak, left) == GroupText(First(data)) + Encoded(Rest(data), lineBreak, left - 1)
  {
  }

  lemma EncodedAtBreak(data: seq<Byte>, lineBreak: string, full: nat)
    requires data != [] && full == GROUPS_PER_LINE
    ensures Encoded(data, lineBreak, 0) == lineBreak + Encoded(data, lineBreak, full)
  {
    EncodedOne(data, lineBreak, full);
    Appended(lineBreak, GroupText(First(data)), Encoded(Rest(data), lineBreak, full - 1));
  }

  lemma EncodedNone(lineBreak: string, left: nat)
    ensures Encoded([], lineBreak, left) == lineBreak
  {
  }

  /** Without line breaks, lines do not matter. */
  lemma {:induction false} WithoutBreaks(data: seq<Byte>, a: nat, b: nat)
    ensures Encoded(data, "", a) == Encoded(data, "", b)
    decreases |data|
  {
    hide GroupText;
    if data != [] {
      WithoutBreaks(Rest(data), NextLeft(a), NextLeft(b));
      EncodedParts("", data, "", a);
      EncodedParts("", data, "", b);
      assert "" + "" == "";
      assert "" + Encoded(data, "", a) == Encoded(data, "", a) && "" + Encoded(data, "", b) == Encoded(data, "", b);
    }
  }

  /** The rest of a line on which `left` more groups fit. */
  lemma {:induction false} LineOf(data: seq<Byte>, lineBreak: string, left: nat, full: nat)
    requires full == GROUPS_PER_LINE
    ensures Encoded(data, lineBreak, left)
         == if |data| <= 3 * left then Encoded(data, "", full) + lineBreak
            else Encoded(data[..3 * left], "", full) + lineBreak + Encoded(data[3 * left..], lineBreak, full)
    decreases left
  {
    hide Encoded, GroupText;
    if data == [] {
      EncodedNone(lineBreak, left);
      EncodedNone("", full);
      assert "" + lineBreak == lineBreak;
    } else if left == 0 {
      EncodedAtBreak(data, lineBreak, full);
      EncodedNone("", full);
      assert data[..0] == [] && data[0..] == data && "" + lineBreak == lineBreak;
    } else {
      EncodedOne(data, lineBreak, left);
      LineOf(Rest(data), lineBreak, left - 1, full);
      if |data| <= 3 * left {
        FirstOfLine(data, full);
        Appended(GroupText(First(data)), Encoded(Rest(data), "", full), lineBreak);
      } else {
        var line := data[..3 * left];
        FirstOfLine(line, full);
        assert First(line) == First(data) && Rest(line) == Rest(data)[..3 * (left - 1)] by { OneGroupOff(data, left); }
        assert Rest(data)[3 * (left - 1)..] == data[3 * left..];
        var g, e := GroupText(First(data)), Encoded(Rest(line), "", full);
        var more := Encoded(data[3 * left..], lineBreak, full);
        Appended(g, e, lineBreak);
        Appended(g, e + lineBreak, more);
      }
    }
  }

  lemma OneGroupOff(data: seq<Byte>, left: nat)
    requires left > 0 && |data| > 3 * left
    ensures var line := data[..3 * left];
            First(line) == First(data) && Rest(line) == Rest(data)[..3 * (left - 1)]
  {
    var line := data[..3 * left];
    assert line[..3] == data[..3];
    assert line[3..] == data[3..][..3 * (left - 1)];
  }

  lemma FirstOfLine(data: seq<Byte>, full: nat)
    requires data != [] && full == GROUPS_PER_LINE
    ensures Encoded(data, "", full) == GroupText(First(data)) + Encoded(Rest(data), "", full)
  {
    hide Encoded, GroupText;
    EncodedOne(data, "", full);
    WithoutBreaks(Rest(data), full - 1, full);
  }

  /** Lines hold 54 bytes, and each ends with the line break, also the last and an empty one. */
  lemma LinesOf(data: seq<Byte>, lineBreak: string)
    ensures Encoded(data, lineBreak, GROUPS_PER_LINE)
         == if |data| <= 54 then Encoded(data, "", GROUPS_PER_LINE) + lineBreak
            else Encoded(data[..54], "", GROUPS_PER_LINE) + lineBreak + Encoded(data[54..], lineBreak, GROUPS_PER_LINE)
  {
    hide Encoded;
    LineOf(data, lineBreak, GROUPS_PER_LINE, GROUPS_PER_LINE);
  }
}
