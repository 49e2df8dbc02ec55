/** The base64 decoder, which packs the digits it finds behind a sentinel bit, and the
round trip with the encoder. */
module Base64Decode {
  import opened Wrappers
  import opened Base64

  /** What the decoder does with a character. */
  datatype Meaning = Digit(value: nat) | Skip | Stop | Invalid

  /** The entry of the inverse table: a digit, -2 for the padding, -1 for anything else. */
  function Table(c: char): int
    requires 0x2B <= c as int <= 0x7A
  {
    if 'A' <= c <= 'Z' then c as int - 'A' as int
    else if 'a' <= c <= 'z' then c as int - 'a' as int + 26
    else if '0' <= c <= '9' then c as int - '0' as int + 52
    else if c == '+' then 62
    else if c == '/' then 63
    else if c == '=' then -2
    else -1
  }

  function Classify(c: char, lenient: bool): (m: Meaning)
    ensures m.Digit? ==> m.value < 64
  {
    if !(0x2B <= c as int <= 0x7A) then
      if c == '\0' then Stop
      else if lenient || c in "\r\n\t " then Skip
      else Invalid
    else if Table(c) == -2 then Stop
    else if Table(c) == -1 then if lenient then Skip else Invalid
    else Digit(Table(c))
  }

  /** The digits of a text up to its end, its padding or a terminator. */
  function Sextets(text: string, lenient: bool): Option<seq<nat>> {
    if text == "" then Some([])
    else
      match Classify(text[0], lenient)
      case Stop => Some([])
      case Invalid => None
      case Skip => Sextets(text[1..], lenient)
      case Digit(v) =>
        var rest := Sextets(text[1..], lenient);
        if rest.None? then None else Some([v] + rest.value)
  }

  /** 24 bits from up to four digits, with zeros for the missing ones. */
  function Bits24(s: seq<nat>): nat
    requires |s| <= 4
  {
    (if |s| > 0 then s[0] * 0x40000 else 0) + (if |s| > 1 then s[1] * 0x1000 else 0)
    + (if |s| > 2 then s[2] * 0x40 else 0) + (if |s| > 3 then s[3] else 0)
  }

  function ThreeBytes(v: nat): (bytes: seq<Byte>)
    ensures |bytes| == 3
  {
    [v / 0x10000 % 0x100, v / 0x100 % 0x100, v % 0x100]
  }

  /** The whole bytes in a sequence of digits. */
  function Pack(s: seq<nat>): seq<Byte> {
    if |s| >= 4 then ThreeBytes(Bits24(s[..4])) + Pack(s[4..])
    else if |s| >= 2 then ThreeBytes(Bits24(s))[..|s| - 1]
    else []
  }

  /** The digits up to the end of the text, its padding, a terminator or an invalid
  character. */
  function DigitsBefore(text: string, lenient: bool): seq<nat> {
    if text == "" then []
    else
      match Classify(text[0], lenient)
      case Stop => []
      case Invalid => []
      case Skip => DigitsBefore(text[1..], lenient)
      case Digit(v) => [v] + DigitsBefore(text[1..], lenient)
  }

  /** What decoding a text writes, given room: all its bytes, or the bytes of the whole
  groups before an invalid character. */
  function Output(text: string, lenient: bool): seq<Byte> {
    var s := DigitsBefore(text, lenient);
    Pack(if Sextets(text, lenient).None? then s[..|s| - |s| % 4] else s)
  }

  function Fitting(bytes: seq<Byte>, capacity: nat): seq<Byte> {
    if |bytes| <= capacity then bytes else bytes[..capacity]
  }

  predicate AreDigits(s: seq<nat>) {
    forall i :: 0 <= i < |s| ==> s[i] < 64
  }

  /** Bound on the space a text can need. */
  lemma {:induction false} PackLength(s: seq<nat>)
    ensures |Pack(s)| == |s| * 3 / 4
  {
    if |s| >= 4 { PackLength(s[4..]); }
  }

  lemma {:induction false} SextetsLength(text: string, lenient: bool)
    requires Sextets(text, lenient).Some?
    ensures |Sextets(text, lenient).value| <= |text| && AreDigits(Sextets(text, lenient).value)
  {
    if text != "" && (Classify(text[0], lenient).Skip? || Classify(text[0], lenient).Digit?) {
      SextetsLength(text[1..], lenient);
    }
  }

  lemma {:induction false} AllDigitsBefore(text: string, lenient: bool)
    requires Sextets(text, lenient).Some?
    ensures DigitsBefore(text, lenient) == Sextets(text, lenient).value
  {
    if text != "" && (Classify(text[0], lenient).Skip? || Classify(text[0], lenient).Digit?) {
      AllDigitsBefore(text[1..], lenient);
    }
  }

  /** Whole groups are packed on their own. */
  lemma {:induction false} PackSplit(a: seq<nat>, b: seq<nat>)
    requires |a| % 4 == 0
    ensures Pack(a + b) == Pack(a) + Pack(b)
  {
    hide ThreeBytes, Bits24;
    if a == [] {
      assert a + b == b;
    } else {
      PackSplit(a[4..], b);
      assert (a + b)[..4] == a[..4] && (a + b)[4..] == a[4..] + b;
    }
  }

  /** Three quarters of the length of the text is always room enough. */
  lemma ThreeQuartersSuffice(text: string, lenient: bool)
    requires Sextets(text, lenient).Some?
    ensures |Pack(Sextets(text, lenient).value)| <= |text| * 3 / 4
  {
    SextetsLength(text, lenient);
    PackLength(Sextets(text, lenient).value);
  }

  // ---------------------------------------------------------------- the decoder

  /** Up to four digits behind a sentinel bit. */
  function Sentinel(s: seq<nat>): nat
    requires |s| <= 4
  {
    if |s| == 0 then 1 else Sentinel(s[..|s| - 1]) * 64 + s[|s| - 1]
  }

  function Power64(n: nat): nat
    requires n <= 4
  {
    if n == 0 then 1 else if n == 1 then 0x40 else if n == 2 then 0x1000 else if n == 3 then 0x40000 else 0x1000000
  }

  lemma {:induction false} SentinelBounds(s: seq<nat>)
    requires |s| <= 4 && AreDigits(s)
    ensures Power64(|s|) <= Sentinel(s) < 2 * Power64(|s|)
  {
    if |s| > 0 { SentinelBounds(s[..|s| - 1]); }
  }

  lemma SentinelOfFour(s: seq<nat>)
    requires |s| == 4
    ensures Sentinel(s) == 0x1000000 + Bits24(s)
  {
    var s3, s2, s1 := s[..3], s[..2], s[..1];
    assert s3[..2] == s2 && s2[..1] == s1 && s1[..0] == [];
    assert Sentinel(s1) == 64 + s[0];
    assert Sentinel(s2) == Sentinel(s1) * 64 + s[1];
    assert Sentinel(s3) == Sentinel(s2) * 64 + s[2];
  }

  lemma Bits24Bound(s: seq<nat>)
    requires |s| <= 4 && AreDigits(s)
    ensures Bits24(s) < 0x1000000
  {
  }

  /** Where the decoder is: the digits `done` written to `out`, the digits `q` waiting, the
  text from i to go. */
  ghost predicate Decoding(text: string, lenient: bool, i: nat, done: seq<nat>, out: seq<Byte>, q: seq<nat>) {
    && i <= |text| && |q| <= 4 && AreDigits(q) && |done| % 4 == 0 && out == Pack(done)
    && DigitsBefore(text, lenient) == done + q + DigitsBefore(text[i..], lenient)
    && (Sextets(text, lenient).None? <==> Sextets(text[i..], lenient).None?)
  }

  /** There is nothing more to come. */
  ghost predicate Ended(text: string, lenient: bool, done: seq<nat>, q: seq<nat>) {
    Sextets(text, lenient).Some? && DigitsBefore(text, lenient) == done + q
  }

  lemma DecodingStep(text: string, lenient: bool, i: nat, done: seq<nat>, out: seq<Byte>, q: seq<nat>)
    requires Decoding(text, lenient, i, done, out, q) && i < |text| && |q| < 4
    ensures Classify(text[i], lenient).Skip? ==> Decoding(text, lenient, i + 1, done, out, q)
    ensures Classify(text[i], lenient).Digit? ==>
              Decoding(text, lenient, i + 1, done, out, q + [Classify(text[i], lenient).value])
    ensures Classify(text[i], lenient).Invalid? ==> Sextets(text, lenient).None? && Output(text, lenient) == out
    ensures Classify(text[i], lenient).Stop? ==> Ended(text, lenient, done, q)
  {
    hide Pack;
    assert text[i..][1..] == text[i + 1..];
    var rest := DigitsBefore(text[i + 1..], lenient);
    var m := Classify(text[i], lenient);
    if m.Digit? {
      assert done + q + ([m.value] + rest) == done + (q + [m.value]) + rest;
    } else if m.Stop? || m.Invalid? {
      var s := DigitsBefore(text, lenient);
      assert s == done + q;
      assert s[..|s| - |q|] == done;
      GroupsBefore(|done|, |q|);
    }
  }

  lemma GroupsBefore(n: nat, k: nat)
    requires n % 4 == 0 && k < 4
    ensures (n + k) % 4 == k
  {
  }

  lemma DecodingStarts(text: string, lenient: bool)
    ensures Decoding(text, lenient, 0, [], [], [])
  {
    assert text[0..] == text;
  }

  lemma DecodingEnds(text: string, lenient: bool, done: seq<nat>, out: seq<Byte>, q: seq<nat>)
    requires Decoding(text, lenient, |text|, done, out, q)
    ensures Ended(text, lenient, done, q)
  {
    hide Pack;
    assert text[|text|..] == "";
    assert done + q + [] == done + q;
  }

  lemma EndedOutput(text: string, lenient: bool, done: seq<nat>, q: seq<nat>)
    requires Ended(text, lenient, done, q) && |done| % 4 == 0
    ensures Output(text, lenient) == Pack(done) + Pack(q)
  {
    hide Pack;
    PackSplit(done, q);
  }

  lemma GroupDone(text: string, lenient: bool, i: nat, done: seq<nat>, out: seq<Byte>, q: seq<nat>)
    requires Decoding(text, lenient, i, done, out, q) && |q| == 4
    ensures Decoding(text, lenient, i, done + q, out + ThreeBytes(Bits24(q)), [])
    ensures out + ThreeBytes(Bits24(q)) <= Output(text, lenient)
  {
    hide ThreeBytes, Bits24;
    PackSplit(done, q);
    PackOfFew(q);
    hide Pack, DigitsBefore, Sextets;
    var s, rest := DigitsBefore(text, lenient), DigitsBefore(text[i..], lenient);
    assert done + q + rest == (done + q) + [] + rest;
    var more := if Sextets(text, lenient).None? then rest[..|rest| - |rest| % 4] else rest;
    if Sextets(text, lenient).None? {
      WholeGroups(done + q, rest);
    }
    PackSplit(done + q, more);
  }

  /** The whole groups of a text that starts with whole groups. */
  lemma WholeGroups(a: seq<nat>, rest: seq<nat>)
    requires |a| % 4 == 0
    ensures var s := a + rest; s[..|s| - |s| % 4] == a + rest[..|rest| - |rest| % 4]
  {
    SameRemainder(|a|, |rest|);
  }

  lemma SameRemainder(n: nat, k: nat)
    requires n % 4 == 0
    ensures (n + k) % 4 == k % 4
  {
    var a, b := n / 4, k / 4;
    assert n + k == 4 * (a + b) + k % 4;
  }

  /** The two low bytes of x above its lowest 16 bits go out one by one. */
  lemma ShiftOut(v: nat)
    requires v < 0x1000000
    ensures (0x1000000 + v) / 0x10000 % 0x100 == v / 0x10000 % 0x100
    ensures (0x1000000 + v) * 0x100 % 0x1_0000_0000 / 0x10000 % 0x100 == v / 0x100 % 0x100
    ensures (0x1000000 + v) * 0x100 % 0x1_0000_0000 * 0x100 % 0x1_0000_0000 / 0x10000 % 0x100 == v % 0x100
  {
    Digit16(v);
    LowByte(v / 0x10000, 1);
    SecondByte(v);
    ThirdByte(v);
  }

  lemma SecondByte(v: nat)
    requires v < 0x1000000
    ensures (0x1000000 + v) * 0x100 % 0x1_0000_0000 == v * 0x100
    ensures v * 0x100 / 0x10000 % 0x100 == v / 0x100 % 0x100
  {
    assert v * 0x100 / 0x10000 == v / 0x100;
  }

  lemma ThirdByte(v: nat)
    requires v < 0x1000000
    ensures v * 0x100 * 0x100 % 0x1_0000_0000 / 0x10000 % 0x100 == v % 0x100
  {
    var hi, lo := v / 0x10000, v % 0x10000;
    assert v == hi * 0x10000 + lo;
    LowHalf(hi, lo);
    LowByte(lo, hi * 0x100);
  }

  lemma LowHalf(hi: nat, lo: nat)
    requires lo < 0x10000
    ensures (hi * 0x10000 + lo) * 0x100 * 0x100 % 0x1_0000_0000 / 0x10000 == lo
  {
    assert (hi * 0x1_0000_0000 + lo * 0x10000) % 0x1_0000_0000 == lo * 0x10000;
  }

  /** Shifts in zeros until the sentinel is at bit 24; n is the number of whole bytes. */
  method Align(x: nat, ghost q: seq<nat>) returns (x': nat, n: int)
    requires 1 <= |q| <= 4 && AreDigits(q) && x == Sentinel(q)
    ensures x' == 0x1000000 + Bits24(q) && n == |q| - 1
  {
    x', n := x, 3;
    ghost var s := q;
    SentinelBounds(s);
    while x' < 0x1000000
      invariant |q| <= |s| <= 4 && AreDigits(s) && s[..|q|] == q
      invariant forall i :: |q| <= i < |s| ==> s[i] == 0
      invariant x' == Sentinel(s) && n == 3 - (|s| - |q|)
      invariant Power64(|s|) <= x' < 2 * Power64(|s|)
      decreases 4 - |s|
    {
      n := n - 1;
      x' := x' * 64;
      ghost var t := s + [0];
      assert t[..|t| - 1] == s;
      s := t;
      SentinelBounds(s);
    }
    SentinelOfFour(s);
    assert forall i :: 0 <= i < |q| ==> s[i] == s[..|q|][i];
  }

  /** Writes the whole bytes that the waiting digits hold. */
  method WriteRest(x: nat, ghost q: seq<nat>, space: nat) returns (ok: bool, bytes: seq<Byte>)
    requires |q| <= 4 && AreDigits(q) && x == Sentinel(q)
    ensures ok <==> |Pack(q)| <= space
    ensures bytes == Fitting(Pack(q), space)
  {
    bytes := [];
    SentinelBounds(q);
    if x >= 64 {
      var y, n := Align(x, q);
      ghost var v := Bits24(q);
      Bits24Bound(q);
      PackOfFew(q);
      ok, bytes := WriteBytes(y, n, v, space);
    } else {
      ok := true;
    }
  }

  lemma PackOfFew(q: seq<nat>)
    requires 1 <= |q| <= 4
    ensures Pack(q) == ThreeBytes(Bits24(q))[..|q| - 1]
  {
    hide ThreeBytes, Bits24;
    if |q| == 4 { assert q[..4] == q && q[4..] == []; }
  }

  method WriteBytes(x: nat, n: nat, ghost v: nat, space: nat) returns (ok: bool, bytes: seq<Byte>)
    requires v < 0x1000000 && x == 0x1000000 + v && n <= 3
    ensures ok <==> n <= space
    ensures bytes == ThreeBytes(v)[..if n <= space then n else space]
  {
    ShiftOut(v);
    bytes := [];
    var y := x;
    while |bytes| < n
      invariant |bytes| <= n && |bytes| <= space
      invariant bytes == ThreeBytes(v)[..|bytes|]
      invariant y == (if |bytes| == 0 then x
                      else if |bytes| == 1 then x * 0x100 % 0x1_0000_0000
                      else x * 0x100 % 0x1_0000_0000 * 0x100 % 0x1_0000_0000) || |bytes| == 3
      decreases n - |bytes|
    {
      if space - |bytes| == 0 { return false, bytes; }
      bytes := bytes + [y / 0x10000 % 0x100];
      y := y * 0x100 % 0x1_0000_0000;
    }
    ok := true;
  }

  /** `Base64Decode` into a buffer of `capacity` bytes: what was written, also on failure. */
  method Base64Decode(text: string, capacity: nat, lenient: bool) returns (ok: bool, out: seq<Byte>)
    ensures ok <==> Sextets(text, lenient).Some? && |Pack(Sextets(text, lenient).value)| <= capacity
    ensures ok ==> out == Pack(Sextets(text, lenient).value)
    ensures out == Fitting(Output(text, lenient), capacity)
  {
    hide Pack, Sextets, DigitsBefore, Output;
    out := [];
    var x, i := 1, 0;
    ghost var q: seq<nat>, done: seq<nat> := [], [];
    DecodingStarts(text, lenient);
    while i < |text|
      invariant Decoding(text, lenient, i, done, out, q)
      invariant |q| < 4 && x == Sentinel(q) && |out| <= capacity
      decreases |text| - i
    {
      DecodingStep(text, lenient, i, done, out, q);
      var m := Classify(text[i], lenient);
      if m.Stop? { break; }
      if m.Invalid? { return false, out; }
      i := i + 1;
      if m.Digit? {
        x, q := Push(x, q, m.value);
        if x >= 0x1000000 {
          GroupDone(text, lenient, i, done, out, q);
          if capacity - |out| < 3 { break; }
          out := out + ThreeOut(x, q);
          done := done + q;
          x, q := 1, [];
        }
      }
    }
    if i == |text| && |q| < 4 { DecodingEnds(text, lenient, done, out, q); }
    var rest;
    ok, rest := WriteRest(x, q, capacity - |out|);
    Written(text, lenient, done, out, q, capacity);
    out := out + rest;
  }

  /** The final write completes the output, or fills the buffer. */
  lemma Written(text: string, lenient: bool, done: seq<nat>, out: seq<Byte>, q: seq<nat>, capacity: nat)
    requires |done| % 4 == 0 && out == Pack(done) && |out| <= capacity && |q| <= 4
    requires Ended(text, lenient, done, q)
             || (|q| == 4 && capacity - |out| < 3 && out + ThreeBytes(Bits24(q)) <= Output(text, lenient))
    ensures out + Fitting(Pack(q), capacity - |out|) == Fitting(Output(text, lenient), capacity)
    ensures Sextets(text, lenient).Some? ==> Pack(Sextets(text, lenient).value) == Output(text, lenient)
    ensures Ended(text, lenient, done, q) ==> (|Pack(q)| <= capacity - |out| <==> |Output(text, lenient)| <= capacity)
    ensures !Ended(text, lenient, done, q) ==> |Pack(q)| > capacity - |out| && |Output(text, lenient)| > capacity
  {
    if Sextets(text, lenient).Some? { AllDigitsBefore(text, lenient); }
    var space := capacity - |out|;
    if Ended(text, lenient, done, q) {
      EndedOutput(text, lenient, done, q);
      hide Pack, Output, Sextets, DigitsBefore;
      if |Pack(q)| > space {
        assert (out + Pack(q))[..capacity] == out + Pack(q)[..space];
      }
    } else {
      PackOfFew(q);
      hide Pack, Output, Sextets, DigitsBefore, ThreeBytes, Bits24;
      var three := ThreeBytes(Bits24(q));
      assert three[..3] == three;
      assert Output(text, lenient)[..capacity] == (out + three)[..capacity] == out + three[..space];
    }
  }

  /** `Base64Decode` without a buffer: the number of bytes it would write. */
  method Base64DecodedSize(text: string, lenient: bool) returns (ok: bool, size: nat)
    requires |text| < 0x1_0000_0000
    ensures ok <==> Sextets(text, lenient).Some?
    ensures size == |Output(text, lenient)|
  {
    if Sextets(text, lenient).Some? { ThreeQuartersSuffice(text, lenient); }
    OutputLength(text, lenient);
    var out;
    ok, out := Base64Decode(text, 0xFFFF_FFFF, lenient);
    size := |out|;
  }

  lemma {:induction false} DigitsBeforeLength(text: string, lenient: bool)
    ensures |DigitsBefore(text, lenient)| <= |text|
  {
    if text != "" && (Classify(text[0], lenient).Skip? || Classify(text[0], lenient).Digit?) {
      DigitsBeforeLength(text[1..], lenient);
    }
  }

  lemma OutputLength(text: string, lenient: bool)
    ensures |Output(text, lenient)| <= |text|
  {
    var s := DigitsBefore(text, lenient);
    DigitsBeforeLength(text, lenient);
    PackLength(s);
    PackLength(s[..|s| - |s| % 4]);
  }

  lemma BelowSentinel(v: nat)
    ensures (0x1000000 + v) / 0x10000 % 0x100 == v / 0x10000 % 0x100
    ensures (0x1000000 + v) / 0x100 % 0x100 == v / 0x100 % 0x100
    ensures (0x1000000 + v) % 0x100 == v % 0x100
  {
    var a, b := v / 0x10000, v / 0x100;
    assert (0x1000000 + v) / 0x10000 == 0x100 + a by { Digit16(v); }
    assert (0x1000000 + v) / 0x100 == 0x10000 + b by { Digit8(v); }
    LowByte(a, 1);
    LowByte(b, 0x100);
    LowByte(v, 0x10000);
  }

  lemma Digit16(v: nat)
    ensures (0x1000000 + v) / 0x10000 == 0x100 + v / 0x10000
  {
  }

  lemma Digit8(v: nat)
    ensures (0x1000000 + v) / 0x100 == 0x10000 + v / 0x100
  {
  }

  lemma LowByte(v: nat, k: nat)
    ensures (0x100 * k + v) % 0x100 == v % 0x100
  {
  }

  /** The three bytes below the sentinel at bit 24. */
  function ThreeOut(x: nat, ghost q: seq<nat>): (bytes: seq<Byte>)
    requires |q| == 4 && AreDigits(q) && x == Sentinel(q)
    ensures bytes == ThreeBytes(Bits24(q))
  {
    SentinelOfFour(q);
    BelowSentinel(Bits24(q));
    [x / 0x10000 % 0x100, x / 0x100 % 0x100, x % 0x100]
  }

  method Push(x: nat, ghost q: seq<nat>, v: nat) returns (x': nat, ghost q': seq<nat>)
    requires |q| < 4 && AreDigits(q) && v < 64 && x == Sentinel(q)
    ensures q' == q + [v] && AreDigits(q') && x' == Sentinel(q')
    ensures x' >= 0x1000000 <==> |q'| == 4
  {
    q' := q + [v];
    assert q'[..|q'| - 1] == q;
    x' := x * 64 + v;
    SentinelBounds(q');
  }

  // ---------------------------------------------------------------- the round trip

  /** The digits that the encoder writes for data. */
  function DataDigits(data: seq<Byte>): seq<nat>
    decreases |data|
  {
    if data == [] then []
    else GroupDigits(First(data)) + DataDigits(Rest(data))
  }

  function GroupDigits(g: seq<Byte>): (s: seq<nat>)
    requires 1 <= |g| <= 3
    ensures |s| == |g| + 1 && AreDigits(s)
  {
    Digits(g[0], if |g| > 1 then g[1] else 0, if |g| > 2 then g[2] else 0)[..|g| + 1]
  }

  lemma CharCode(v: nat)
    requires v < 64
    ensures Char64(v) as int == (if v < 26 then v + 'A' as int
                                 else if v < 52 then v - 26 + 'a' as int
                                 else if v < 62 then v - 52 + '0' as int
                                 else if v == 62 then '+' as int else '/' as int)
  {
    var u := v - 26;
    if v < 26 {
      assert "ABCDEFGHIJKLMNOPQRSTUVWXYZ"[v] as int == v + 65;
    } else if v < 52 {
      assert "abcdefghijklmnopqrstuvwxyz"[u] as int == u + 97;
    }
  }

  lemma CharIsDigit(v: nat, lenient: bool)
    requires v < 64
    ensures Classify(Char64(v), lenient) == Digit(v)
  {
    hide Char64;
    CharCode(v);
  }

  predicate IsLetter(c: char) {
    'A' <= c <= 'Z' || 'a' <= c <= 'z' || '0' <= c <= '9' || c == '+' || c == '/'
  }

  predicate IsEnd(c: char) {
    c == '=' || c == '\0'
  }

  predicate IsGap(c: char) {
    c == ' ' || c == '\t' || c == '\r' || c == '\n'
  }

  /** What each character means: the 64 letters are digits, the padding and the terminator end the
  text, and of the others strict decoding passes over four and lenient decoding over all. */
  lemma ClassifyExactly(c: char, lenient: bool)
    ensures Classify(c, lenient).Digit? <==> IsLetter(c)
    ensures Classify(c, lenient).Digit? ==> Char64(Classify(c, lenient).value) == c
    ensures Classify(c, lenient).Stop? <==> IsEnd(c)
    ensures Classify(c, lenient).Skip? <==> !IsLetter(c) && !IsEnd(c) && (lenient || IsGap(c))
    ensures Classify(c, lenient).Invalid? <==> !IsLetter(c) && !IsEnd(c) && !lenient && !IsGap(c)
  {
    hide Char64;
    if Classify(c, lenient).Digit? { CharCode(Classify(c, lenient).value); }
  }

  /** Characters that can break lines: white space, or when decoding leniently anything that
  neither is a letter nor ends the text. */
  predicate CanBreak(s: string, lenient: bool) {
    forall i :: 0 <= i < |s| ==> IsGap(s[i]) || (lenient && !IsLetter(s[i]) && !IsEnd(s[i]))
  }

  /** Every character of s is passed over. */
  predicate Skipped(s: string, lenient: bool) {
    forall i :: 0 <= i < |s| ==> Classify(s[i], lenient).Skip?
  }

  lemma BreaksAreSkipped(s: string, lenient: bool)
    ensures CanBreak(s, lenient) <==> Skipped(s, lenient)
  {
    forall i | 0 <= i < |s| { ClassifyExactly(s[i], lenient); }
  }

  lemma {:induction false} SkipAll(s: string, rest: string, lenient: bool)
    requires Skipped(s, lenient)
    ensures Sextets(s + rest, lenient) == Sextets(rest, lenient)
  {
    if s == "" {
      assert s + rest == rest;
    } else {
      assert (s + rest)[1..] == s[1..] + rest;
      SkipAll(s[1..], rest, lenient);
    }
  }

  lemma OneDigit(v: nat, rest: string, lenient: bool)
    requires v < 64
    ensures Sextets([Char64(v)] + rest, lenient) ==
            (if Sextets(rest, lenient).None? then None else Some([v] + Sextets(rest, lenient).value))
  {
    CharIsDigit(v, lenient);
    assert ([Char64(v)] + rest)[1..] == rest;
  }

  /** The digits of one group and then of the text after it. */
  lemma OneGroup(g: seq<Byte>, rest: string, lenient: bool)
    requires 1 <= |g| <= 3
    ensures |g| < 3 ==> Sextets(GroupText(g) + rest, lenient) == Some(GroupDigits(g))
    ensures |g| == 3 && Sextets(rest, lenient).Some? ==>
              Sextets(GroupText(g) + rest, lenient) == Some(GroupDigits(g) + Sextets(rest, lenient).value)
  {
    hide Sextets, Digits, Char64;
    var s := Digits(g[0], if |g| > 1 then g[1] else 0, if |g| > 2 then g[2] else 0);
    var t3 := (if |g| > 2 then [Char64(s[3])] else "=") + rest;
    var t2 := (if |g| > 1 then [Char64(s[2])] else "=") + t3;
    var t1 := [Char64(s[1])] + t2;
    assert GroupText(g) + rest == [Char64(s[0])] + t1;
    OneDigit(s[0], t1, lenient);
    OneDigit(s[1], t2, lenient);
    if |g| > 1 { OneDigit(s[2], t3, lenient); }
    if |g| > 2 { OneDigit(s[3], rest, lenient); }
    if |g| == 2 { Padding(t3, lenient); }
    if |g| == 1 { Padding(t2, lenient); }
    assert |g| == 1 ==> [s[0]] + ([s[1]] + []) == s[..2];
    assert |g| == 2 ==> [s[0]] + ([s[1]] + ([s[2]] + [])) == s[..3];
    if |g| == 3 && Sextets(rest, lenient).Some? {
      var r := Sextets(rest, lenient).value;
      assert [s[0]] + ([s[1]] + ([s[2]] + ([s[3]] + r))) == s[..4] + r;
    }
  }

  lemma Padding(text: string, lenient: bool)
    requires text != "" && text[0] == '='
    ensures Sextets(text, lenient) == Some([])
  {
  }

  /** Reading the encoder's text gives the digits it wrote, whatever the line break is
  made of as long as the decoder passes over it. */
  lemma {:induction false} EncodedDigits(data: seq<Byte>, lineBreak: string, left: nat, lenient: bool)
    requires Skipped(lineBreak, lenient)
    ensures Sextets(Encoded(data, lineBreak, left), lenient) == Some(DataDigits(data))
    decreases |data|
  {
    hide Sextets, GroupText, GroupDigits;
    if data == [] {
      assert lineBreak + "" == lineBreak;
      SkipAll(lineBreak, "", lenient);
      assert Sextets("", lenient) == Some([]) by { NoDigits(lenient); }
    } else {
      var rest := Encoded(Rest(data), lineBreak, NextLeft(left));
      EncodedDigits(Rest(data), lineBreak, NextLeft(left), lenient);
      OneGroup(First(data), rest, lenient);
      if left == 0 {
        SkipAll(lineBreak, GroupText(First(data)) + rest, lenient);
        assert lineBreak + GroupText(First(data)) + rest == lineBreak + (GroupText(First(data)) + rest);
      }
      if |First(data)| < 3 { assert GroupDigits(First(data)) + [] == GroupDigits(First(data)); }
    }
  }

  lemma NoDigits(lenient: bool)
    ensures Sextets("", lenient) == Some([])
  {
  }

  lemma FourDigits(v: nat)
    requires v < 0x1000000
    ensures v / 0x40000 % 64 * 0x40000 + v / 0x1000 % 64 * 0x1000 + v / 0x40 % 64 * 0x40 + v % 64 == v
  {
    var a, b, c := v / 0x40000, v / 0x1000, v / 0x40;
    assert a < 64;
    SplitDigit(v);
    SplitDigit(c);
    SplitDigit(b);
    DividedTwice(v, c);
    DividedTwice(c, b);
    assert b / 64 == a by { DividedThrice(v); }
  }

  /** The last digit of a number and the rest. */
  lemma SplitDigit(v: nat)
    ensures v == v / 64 * 64 + v % 64
  {
  }

  lemma DividedTwice(v: nat, c: nat)
    requires c == v / 64
    ensures v / 0x1000 == c / 64
  {
  }

  lemma DividedThrice(v: nat)
    ensures v / 0x1000 / 64 == v / 0x40000
  {
  }

  lemma BytesBack(a: Byte, b: Byte, c: Byte)
    ensures ThreeBytes(a as int * 0x10000 + b as int * 0x100 + c) == [a, b, c]
  {
    var v := a as int * 0x10000 + b as int * 0x100 + c;
    assert v / 0x100 == a as int * 0x100 + b && v % 0x100 == c;
    assert v / 0x10000 == a;
  }

  lemma GroupBack(g: seq<Byte>)
    requires 1 <= |g| <= 3
    ensures ThreeBytes(Bits24(GroupDigits(g)))[..|g|] == g
  {
    var a, b, c := g[0], if |g| > 1 then g[1] else 0, if |g| > 2 then g[2] else 0;
    var v: nat := a as int * 0x10000 + b as int * 0x100 + c;
    assert Bits24(GroupDigits(g)) == v by { BitsOfDigits(g, a, b, c, v); }
    BytesBack(a, b, c);
    assert [a, b, c][..|g|] == g;
  }

  lemma BitsOfDigits(g: seq<Byte>, a: Byte, b: Byte, c: Byte, v: nat)
    requires 1 <= |g| <= 3 && a == g[0] && v == a as int * 0x10000 + b as int * 0x100 + c
    requires b == if |g| > 1 then g[1] else 0
    requires c == if |g| > 2 then g[2] else 0
    ensures Bits24(GroupDigits(g)) == v
  {
    hide Bits24, Digits;
    var s := Digits(a, b, c);
    FourDigitsBack(a, b, c, v);
    LowBytesZero(a, b, c, v);
    BitsOfGroup(v, |g|);
    ZeroDigits(s, |g| + 1);
  }

  lemma LowBytesZero(a: Byte, b: Byte, c: Byte, v: nat)
    requires v == a as int * 0x10000 + b as int * 0x100 + c
    ensures c == 0 ==> v % 0x100 == 0
    ensures b == 0 && c == 0 ==> v % 0x10000 == 0
  {
  }

  lemma FourDigitsBack(a: Byte, b: Byte, c: Byte, v: nat)
    requires v == a as int * 0x10000 + b as int * 0x100 + c
    ensures v < 0x1000000 && Bits24(Digits(a, b, c)) == v
    ensures Digits(a, b, c)[2] == v / 0x40 % 64 && Digits(a, b, c)[3] == v % 64
  {
    FourDigits(v);
  }

  lemma ZeroDigits(s: seq<nat>, n: nat)
    requires |s| == 4 && 2 <= n <= 4
    requires forall i :: n <= i < 4 ==> s[i] == 0
    ensures Bits24(s[..n]) == Bits24(s)
  {
  }

  /** The digits left out of a short group are zero. */
  lemma BitsOfGroup(v: nat, n: nat)
    requires v < 0x1000000 && 1 <= n <= 3
    requires n < 3 ==> v % 0x100 == 0
    requires n < 2 ==> v % 0x10000 == 0
    ensures n < 3 ==> v % 64 == 0
    ensures n < 2 ==> v / 0x40 % 64 == 0
  {
    if n < 3 { assert v == 64 * (v / 0x100 * 4); }
    if n < 2 { assert v == 0x1000 * (v / 0x10000 * 16) && v / 0x40 == 64 * (v / 0x10000 * 16); }
  }

  /** Packing the digits of data gives data back. */
  lemma {:induction false} PackDigits(data: seq<Byte>)
    ensures Pack(DataDigits(data)) == data
    decreases |data|
  {
    hide GroupDigits, ThreeBytes, Bits24;
    if data != [] {
      var g, rest := First(data), DataDigits(Rest(data));
      GroupBack(g);
      if |g| == 3 {
        PackDigits(Rest(data));
        assert (GroupDigits(g) + rest)[..4] == GroupDigits(g) && (GroupDigits(g) + rest)[4..] == rest;
        assert g + Rest(data) == data;
      } else {
        assert GroupDigits(g) + [] == GroupDigits(g);
      }
    }
  }

  /** What the encoder writes, the decoder reads back, byte for byte. */
  lemma RoundTrip(data: seq<Byte>, lineBreak: string, lenient: bool)
    requires CanBreak(lineBreak, lenient)
    ensures var digits := Sextets(Encoded(data, lineBreak, GROUPS_PER_LINE), lenient);
            digits.Some? && Pack(digits.value) == data
  {
    BreaksAreSkipped(lineBreak, lenient);
    EncodedDigits(data, lineBreak, GROUPS_PER_LINE, lenient);
    PackDigits(data);
  }
}
