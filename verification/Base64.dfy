/** Base64 text, RFC 4648 section 4, with line breaks: the encoder and the size it needs. */
module Base64 {
  import opened Wrappers

  /** A line break goes in after this many groups of four characters. */
  const GROUPS_PER_LINE: nat := 18

  /** The alphabet. */
  function Char64(v: nat): char
    requires v < 64
  {
    if v < 26 then "ABCDEFGHIJKLMNOPQRSTUVWXYZ"[v]
    else if v < 52 then "abcdefghijklmnopqrstuvwxyz"[v - 26]
    else if v < 62 then "0123456789"[v - 52]
    else "+/"[v - 62]
  }

  // ---------------------------------------------------------------- encoding

  /** Three bytes as four 6-bit digits. */
  function Digits(a: Byte, b: Byte, c: Byte): (s: seq<nat>)
    ensures |s| == 4 && forall i :: 0 <= i < 4 ==> s[i] < 64
  {
    var v: nat := a as int * 0x10000 + b as int * 0x100 + c;
    [v / 0x40000 % 64, v / 0x1000 % 64, v / 0x40 % 64, v % 64]
  }

  /** One group of output: up to three bytes, padded with `=`. */
  function GroupText(bytes: seq<Byte>): (text: string)
    requires 1 <= |bytes| <= 3
    ensures |text| == 4
  {
    var s := Digits(bytes[0], if |bytes| > 1 then bytes[1] else 0, if |bytes| > 2 then bytes[2] else 0);
    [Char64(s[0]), Char64(s[1]),
     if |bytes| > 1 then Char64(s[2]) else '=',
     if |bytes| > 2 then Char64(s[3]) else '=']
  }

  function First(data: seq<Byte>): seq<Byte> {
    if |data| <= 3 then data else data[..3]
  }

  function Rest(data: seq<Byte>): seq<Byte> {
    if |data| <= 3 then [] else data[3..]
  }

  /** The text of data when `left` more groups fit on the line.  A line break ends
  every full line that something follows, and the text. */
  function Encoded(data: seq<Byte>, lineBreak: string, left: nat): string
    decreases |data|
  {
    if data == [] then lineBreak
    else if left == 0 then lineBreak + GroupText(First(data)) + Encoded(Rest(data), lineBreak, GROUPS_PER_LINE - 1)
    else GroupText(First(data)) + Encoded(Rest(data), lineBreak, left - 1)
  }

  function Groups(n: nat): nat {
    (n + 2) / 3
  }

  const UINT32: nat := 0x1_0000_0000

  /** `Base64EncodeMaxOutput`, with lengths in words of 32 or 64 bits.  For no data the
  number of groups less one wraps around. */
  function MaxOutput(n: nat, lineBreak: string, wide: bool): nat {
    if n == 0 then
      (1 + |lineBreak| * (1 + ((if wide then UINT32 * UINT32 else UINT32) - 1) / GROUPS_PER_LINE)) % UINT32
    else 1 + Groups(n) * 4 + |lineBreak| * (1 + (Groups(n) - 1) / GROUPS_PER_LINE)
  }

  /** Line breaks put in between groups when `left` more fit on the line. */
  function Breaks(groups: nat, left: nat): nat {
    if groups <= left then 0 else (groups - left + GROUPS_PER_LINE - 1) / GROUPS_PER_LINE
  }

  /** Groups that fit on the line after one more group. */
  function NextLeft(left: nat): nat {
    if left == 0 then GROUPS_PER_LINE - 1 else left - 1
  }

  lemma BreaksStep(groups: nat, left: nat)
    requires groups > 0 && left <= GROUPS_PER_LINE
    ensures Breaks(groups, left) == Breaks(groups - 1, NextLeft(left)) + (if left == 0 then 1 else 0)
  {
  }

  lemma GroupsStep(data: seq<Byte>)
    requires data != []
    ensures Groups(|Rest(data)|) == Groups(|data|) - 1
  {
  }

  lemma EncodedStep(data: seq<Byte>, lineBreak: string, left: nat)
    requires data != []
    ensures |Encoded(data, lineBreak, left)| ==
            4 + (if left == 0 then |lineBreak| else 0) + |Encoded(Rest(data), lineBreak, NextLeft(left))|
  {
  }

  function Times(l: nat, n: nat): nat
    decreases n
  {
    if n == 0 then 0 else l + Times(l, n - 1)
  }

  lemma {:induction false} TimesIsProduct(l: nat, n: nat)
    ensures Times(l, n) == l * n
    decreases n
  {
    if n > 0 {
      TimesIsProduct(l, n - 1);
      assert l * n == l + l * (n - 1);
    }
  }

  /** Characters that `groups` more groups take, with their line breaks. */
  function Size(groups: nat, l: nat, left: nat): nat
    decreases groups
  {
    if groups == 0 then l else 4 + (if left == 0 then l else 0) + Size(groups - 1, l, NextLeft(left))
  }

  lemma {:induction false} EncodedSize(data: seq<Byte>, lineBreak: string, left: nat)
    ensures |Encoded(data, lineBreak, left)| == Size(Groups(|data|), |lineBreak|, left)
    decreases |data|
  {
    hide GroupText, First;
    if data != [] {
      EncodedStep(data, lineBreak, left);
      EncodedSize(Rest(data), lineBreak, NextLeft(left));
      GroupsStep(data);
    }
  }

  lemma {:induction false} SizeInClosedForm(groups: nat, l: nat, left: nat)
    requires left <= GROUPS_PER_LINE
    ensures Size(groups, l, left) == groups * 4 + Times(l, 1 + Breaks(groups, left))
    decreases groups
  {
    if groups == 0 {
      assert Times(l, 1) == l + Times(l, 0);
    } else {
      SizeInClosedForm(groups - 1, l, NextLeft(left));
      BreaksStep(groups, left);
    }
  }

  lemma BreaksOfAll(groups: nat)
    requires groups > 0
    ensures Breaks(groups, GROUPS_PER_LINE) == (groups - 1) / GROUPS_PER_LINE
  {
  }

  /** The size computed for the buffer is exactly the text and its terminator, unless a
  line break ends a text of no data. */
  lemma MaxOutputIsExact(data: seq<Byte>, lineBreak: string, wide: bool)
    requires |lineBreak| < 0x2000_0000
    ensures |Encoded(data, lineBreak, GROUPS_PER_LINE)| + 1 == MaxOutput(|data|, lineBreak, wide)
            <==> data != [] || lineBreak == ""
  {
    if data == [] {
      NoDataOutput(|lineBreak|);
    } else {
      DataOutput(data, lineBreak, wide);
    }
  }

  lemma DataOutput(data: seq<Byte>, lineBreak: string, wide: bool)
    requires data != []
    ensures |Encoded(data, lineBreak, GROUPS_PER_LINE)| + 1 == MaxOutput(|data|, lineBreak, wide)
  {
    hide Encoded, Size, Times, Breaks;
    var groups := Groups(|data|);
    EncodedSize(data, lineBreak, GROUPS_PER_LINE);
    SizeInClosedForm(groups, |lineBreak|, GROUPS_PER_LINE);
    BreaksOfAll(groups);
    TimesIsProduct(|lineBreak|, 1 + (groups - 1) / GROUPS_PER_LINE);
  }

  /** The size computed for no data and a line break of l characters. */
  lemma NoDataOutput(l: nat)
    requires l < 0x2000_0000
    ensures (1 + l * (1 + (UINT32 - 1) / GROUPS_PER_LINE)) % UINT32 == l + 1 <==> l == 0
    ensures (1 + l * (1 + (UINT32 * UINT32 - 1) / GROUPS_PER_LINE)) % UINT32 == l + 1 <==> l == 0
  {
    assert (UINT32 - 1) / GROUPS_PER_LINE == 238609294;
    assert (UINT32 * UINT32 - 1) / GROUPS_PER_LINE == 1024819115206086200;
    assert 1024819115206086200 == 238609294 * UINT32 + 954437176;
    WrappedLength(l, l * 238609294);
    WrappedLength(l, l * 1024819115206086200);
    OddFactor(l);
  }

  /** A product that wraps around to nothing. */
  lemma WrappedLength(l: nat, product: nat)
    requires l < 0x2000_0000
    ensures (l + 1 + product) % UINT32 == l + 1 <==> product % UINT32 == 0
  {
    var q, r := product / UINT32, product % UINT32;
    assert l + 1 + product == q * UINT32 + (l + 1 + r);
    assert (l + 1 + product) % UINT32 == (l + 1 + r) % UINT32;
  }

  lemma OddFactor(l: nat)
    requires l < 0x2000_0000
    ensures l * 238609294 % UINT32 == 0 <==> l == 0
    ensures l * 1024819115206086200 % UINT32 == 0 <==> l == 0
  {
    if l * 238609294 % UINT32 == 0 {
      NotDivisible31(l, l * 238609294 / UINT32);
    }
    if l * 1024819115206086200 % UINT32 == 0 {
      NotDivisible29(l, l * 1024819115206086200 / UINT32 - l * 238609294);
    }
  }

  /** 119304647 has the inverse 1073741815 modulo 2^31. */
  lemma NotDivisible31(l: nat, k: int)
    requires l < 0x2000_0000 && l * 238609294 == k * UINT32
    ensures l == 0
  {
    assert l * 119304647 == k * 0x8000_0000;
    assert l == (k * 1073741815 - l * 59652323) * 0x8000_0000;
  }

  /** It has the inverse 536870903 modulo 2^29. */
  lemma NotDivisible29(l: nat, k: int)
    requires l < 0x2000_0000 && l * 954437176 == k * UINT32
    ensures l == 0
  {
    assert l * 119304647 == k * 0x2000_0000;
    assert l == (k * 536870903 - l * 119304645) * 0x2000_0000;
  }

  lemma {:induction false} SizeAtLeast(groups: nat, l: nat, left: nat)
    ensures Size(groups, l, left) >= l
    decreases groups
  {
    if groups > 0 { SizeAtLeast(groups - 1, l, NextLeft(left)); }
  }

  /** Room that the rest of the encoding takes at least. */
  lemma EncodedAtLeast(data: seq<Byte>, lineBreak: string, left: nat)
    requires data != []
    ensures |Encoded(data, lineBreak, left)| >= 4 + |lineBreak|
  {
    EncodedStep(data, lineBreak, left);
    EncodedSize(Rest(data), lineBreak, NextLeft(left));
    SizeAtLeast(Groups(|Rest(data)|), |lineBreak|, NextLeft(left));
  }

  /** `Base64Encode` into a buffer of `size` characters: the text, or false if it
  does not fit together with its terminator; and its length, or the length to ask for. */
  method Base64Encode(data: seq<Byte>, size: nat, lineBreak: string, wide: bool)
    returns (ok: bool, text: string, length: nat)
    ensures ok <==> size > |Encoded(data, lineBreak, GROUPS_PER_LINE)|
    ensures ok ==> text == Encoded(data, lineBreak, GROUPS_PER_LINE) && length == |text|
    ensures !ok ==> length == MaxOutput(|data|, lineBreak, wide)
  {
    ghost var want := Encoded(data, lineBreak, GROUPS_PER_LINE);
    text := "";
    length := MaxOutput(|data|, lineBreak, wide);
    if size == 0 { return false, text, length; }
    var room := size - 1;
    var next := GROUPS_PER_LINE;
    var p := 0;
    while |data| - p >= 3
      invariant 0 <= p <= |data| && 0 <= next <= GROUPS_PER_LINE && room >= 0
      invariant |text| + room == size - 1
      invariant text + Encoded(data[p..], lineBreak, next) == want
      decreases |data| - p
    {
      EncodedAtLeast(data[p..], lineBreak, next);
      if room < 4 + |lineBreak| { return false, text, length; }
      text, room, next := PutGroup(text, room, next, data, p, lineBreak);
      p := p + 3;
    }
    if p != |data| {
      EncodedAtLeast(data[p..], lineBreak, next);
      if room < 4 + |lineBreak| { return false, text, length; }
      text, room, next := PutGroup(text, room, next, data, p, lineBreak);
      p := |data|;
    }
    assert data[p..] == [];
    if room < |lineBreak| { return false, text, length; }
    text := text + lineBreak;
    length := |text|;
    ok := true;
  }

  /** The characters of the group that starts at p. */
  method MakeGroup(data: seq<Byte>, p: nat) returns (group: string)
    requires p < |data|
    ensures group == GroupText(First(data[p..]))
  {
    hide Char64;
    var v: nat := data[p] as int * 0x10000;
    if p + 1 != |data| { v := v + data[p + 1] as int * 0x100; }
    if p + 1 != |data| && p + 2 != |data| { v := v + data[p + 2]; }
    group := [Char64(v / 0x40000 % 64), Char64(v / 0x1000 % 64),
              if p + 1 != |data| then Char64(v / 0x40 % 64) else '=',
              if p + 1 != |data| && p + 2 != |data| then Char64(v % 64) else '='];
  }

  /** Writes a line break if one is due, and the group that starts at p. */
  method PutGroup(text: string, room: nat, next: nat, data: seq<Byte>, p: nat, lineBreak: string)
    returns (text': string, room': nat, next': nat)
    requires p < |data| && next <= GROUPS_PER_LINE && room >= 4 + |lineBreak|
    ensures |text'| + room' == |text| + room && next' <= GROUPS_PER_LINE
    ensures var q := if p + 3 <= |data| then p + 3 else |data|;
            text' + Encoded(data[q..], lineBreak, next') == text + Encoded(data[p..], lineBreak, next)
  {
    hide GroupText, First, Encoded;
    text', room', next' := text, room, next;
    if next' == 0 {
      text' := text' + lineBreak;
      room' := room' - |lineBreak|;
      next' := GROUPS_PER_LINE;
    }
    var group := MakeGroup(data, p);
    text' := text' + group;
    room' := room' - 4;
    next' := next' - 1;
    ghost var d := data[p..];
    assert Rest(d) == (if p + 3 <= |data| then data[p + 3..] else data[|data|..]);
    EncodedParts(text, d, lineBreak, next);
  }

  lemma EncodedParts(text: string, data: seq<Byte>, lineBreak: string, left: nat)
    requires data != []
    ensures text + Encoded(data, lineBreak, left) ==
            (if left == 0 then text + lineBreak else text) + GroupText(First(data))
            + Encoded(Rest(data), lineBreak, NextLeft(left))
  {
    var group, rest := GroupText(First(data)), Encoded(Rest(data), lineBreak, NextLeft(left));
    if left == 0 {
      assert text + (lineBreak + group + rest) == text + lineBreak + group + rest;
    } else {
      assert text + (group + rest) == text + group + rest;
    }
  }
}
