/** The grammar of IPv6 address texts, and the proof that the parser reads exactly the texts
of the grammar, each as what it means. */
module Ipv6Grammar {
  import opened Wrappers
  import opened Ipv6Parse
  import opened Ipv6Lexer
  import opened Texts

  // ---------------------------------------------------------------- the address part

  /** A group of hexadecimal digits, a dotted decimal, or the double colon. */
  datatype Item = Quad(digits: string) | Dots(parts: seq<string>) | Gap

  function ItemText(x: Item): string {
    match x
    case Quad(digits) => digits
    case Dots(parts) => DotText(parts)
    case Gap => "::"
  }

  function Separator(a: Item, b: Item): string {
    if a.Gap? || b.Gap? then "" else ":"
  }

  function Written(items: seq<Item>): string {
    if items == [] then ""
    else if |items| == 1 then ItemText(items[0])
    else ItemText(items[0]) + Separator(items[0], items[1]) + Written(items[1..])
  }

  function ItemBytes(x: Item): seq<nat> {
    match x
    case Quad(digits) => [Numeral(digits, 16) / 256, Numeral(digits, 16) % 256]
    case Dots(parts) => OctetValues(parts)
    case Gap => []
  }

  /** The bytes of the items, with zeros for the double colon. */
  function Expanded(items: seq<Item>, zeros: nat): seq<nat> {
    if items == [] then []
    else (if items[0].Gap? then seq(zeros, _ => 0) else ItemBytes(items[0])) + Expanded(items[1..], zeros)
  }

  function Bytes(items: seq<Item>): seq<nat> {
    Expanded(items, 0)
  }

  function Gaps(items: seq<Item>): nat {
    if items == [] then 0 else (if items[0].Gap? then 1 else 0) + Gaps(items[1..])
  }

  predicate IsItem(x: Item) {
    match x
    case Quad(digits) => 1 <= |digits| <= 4 && IsHex(digits)
    case Dots(parts) => |parts| == 4 && AreOctets(parts)
    case Gap => true
  }

  /** Items in their order: a dotted decimal can only be the last. */
  predicate AreItems(items: seq<Item>) {
    forall k :: 0 <= k < |items| ==> IsItem(items[k]) && (items[k].Dots? ==> k == |items| - 1)
  }

  /** A whole address: 16 bytes, or fewer around one double colon. */
  predicate IsAddress(items: seq<Item>) {
    && items != [] && AreItems(items) && Gaps(items) <= 1
    && if Gaps(items) == 0 then |Bytes(items)| == 16 else |Bytes(items)| < 16
  }

  /** The address that the items spell. */
  function AddressBytes(items: seq<Item>): seq<nat>
    requires |Bytes(items)| <= 16
  {
    Expanded(items, 16 - |Bytes(items)|)
  }

  // ---------------------------------------------------------------- reading items

  /** How many bytes stand before the double colon. */
  function GapAt(items: seq<Item>): nat {
    if items == [] || items[0].Gap? then 0 else |ItemBytes(items[0])| + GapAt(items[1..])
  }

  /** Items that can follow n bytes, before or after the double colon. */
  predicate IsRest(items: seq<Item>, n: nat, filled: bool, must: bool) {
    && AreItems(items) && Gaps(items) + (if filled then 1 else 0) <= 1 && n + |Bytes(items)| <= 16
    && (items != [] ==> !items[0].Gap?) && (must ==> items != [])
  }

  /** The character after the items does not belong to them. */
  predicate Ends(t: string, j: nat, items: seq<Item>, n: nat, filled: bool) {
    if items == [] || items[|items| - 1].Gap? then HexVal(At(t, j)) < 0
    else if items[|items| - 1].Dots? then OctetEnds(t, j, items[|items| - 1].parts)
    else
      && At(t, j) != '.' && (|items[|items| - 1].digits| == 4 || HexVal(At(t, j)) < 0)
      && (At(t, j) == ':' ==> At(t, j + 1) != ':' && !filled && Gaps(items) == 0 && n + |Bytes(items)| >= 16)
  }

  function Filled(d: seq<nat>, zeroFill: int, items: seq<Item>): int {
    if Gaps(items) > 0 then |d| + GapAt(items) else zeroFill
  }

  lemma NoItems()
    ensures Written([]) == "" && Bytes([]) == [] && Gaps([]) == 0
  {
  }

  /** One item in front of others. */
  lemma FirstItem(x: Item, rest: seq<Item>)
    requires !x.Gap?
    ensures var items := [x] + rest;
            && Bytes(items) == ItemBytes(x) + Bytes(rest) && Gaps(items) == Gaps(rest)
            && GapAt(items) == |ItemBytes(x)| + GapAt(rest)
            && Written(items) == ItemText(x) + (if rest != [] && !rest[0].Gap? then ":" else "") + Written(rest)
            && (IsItem(x) && AreItems(rest) && (x.Dots? ==> rest == []) ==> AreItems(items))
            && (rest != [] ==> items[|items| - 1] == rest[|rest| - 1])
  {
    var items := [x] + rest;
    assert items[1..] == rest;
    ItemWritten(items, x, rest);
    hide Written, ItemBytes, ItemText, IsItem;
    assert forall k :: 0 < k < |items| ==> items[k] == rest[k - 1];
  }

  lemma ItemWritten(items: seq<Item>, x: Item, rest: seq<Item>)
    requires !x.Gap? && items != [] && items[0] == x && items[1..] == rest
    ensures Written(items) == ItemText(x) + (if rest != [] && !rest[0].Gap? then ":" else "") + Written(rest)
  {
    hide ItemText;
    if rest == [] { assert ItemText(x) + "" + "" == ItemText(x); }
  }

  lemma FirstGap(rest: seq<Item>)
    ensures var items := [Gap] + rest;
            && Bytes(items) == Bytes(rest) && Gaps(items) == 1 + Gaps(rest) && GapAt(items) == 0
            && Written(items) == "::" + Written(rest)
            && (AreItems(rest) ==> AreItems(items)) && (rest != [] ==> items[|items| - 1] == rest[|rest| - 1])
  {
    var items := [Gap] + rest;
    assert items[1..] == rest;
    NoZeros(Bytes(rest));
    GapWritten(items, rest);
    hide Written;
    assert forall k :: 0 < k < |items| ==> items[k] == rest[k - 1];
  }

  lemma GapWritten(items: seq<Item>, rest: seq<Item>)
    requires items != [] && items[0].Gap? && items[1..] == rest
    ensures Written(items) == "::" + Written(rest)
  {
    if rest != [] { assert "::" + "" + Written(rest) == "::" + Written(rest); }
  }

  lemma NoZeros(bytes: seq<nat>)
    ensures seq(0, _ => 0) + bytes == bytes
  {
  }

  lemma QuadBytes(digits: string)
    requires 1 <= |digits| <= 4 && IsHex(digits)
    ensures ItemBytes(Quad(digits)) == [Numeral(digits, 16) / 256, Numeral(digits, 16) % 256]
    ensures IsItem(Quad(digits)) && ItemText(Quad(digits)) == digits
  {
  }

  /** Items that can be read from position i up to j. */
  ghost predicate Stand(t: string, i: nat, j: nat, items: seq<Item>, n: nat, filled: bool, must: bool) {
    && i <= j <= |t| && IsRest(items, n, filled, must) && t[i..j] == Written(items)
    && Ends(t, j, items, n, filled)
  }

  /** What the parser found when it reads the items from position i. */
  ghost predicate Reads(t: string, i: nat, d: seq<nat>, zeroFill: int, must: bool, items: seq<Item>, q: Quads) {
    && Stand(t, i, q.next, items, |d|, zeroFill >= 0, must)
    && q.d == d + Bytes(items) && q.zeroFill == Filled(d, zeroFill, items)
  }

  lemma ReadNothing(t: string, i: nat, d: seq<nat>, zeroFill: int)
    requires i <= |t| && |d| <= 16 && HexVal(At(t, i)) < 0
    ensures Reads(t, i, d, zeroFill, false, [], Quads(d, zeroFill, i))
  {
    NoItems();
    assert d + [] == d && t[i..i] == "";
  }

  lemma ReadDots(t: string, i: nat, d: seq<nat>, zeroFill: int, must: bool) returns (items: seq<Item>)
    requires i <= |t| && |d| + 4 <= 16 && Dotted(t, i, d, 4).Some?
    ensures var (d', k) := Dotted(t, i, d, 4).value; Reads(t, i, d, zeroFill, must, items, Quads(d', zeroFill, k))
  {
    hide Dotted, DotText, OctetValues, AreOctets;
    var parts := DottedIs(t, i, d, 4);
    items := [Dots(parts)];
    NoItems();
    FirstItem(Dots(parts), []);
    assert [Dots(parts)] + [] == items;
    assert OctetValues(parts) + [] == OctetValues(parts);
    assert DotText(parts) + "" + "" == DotText(parts);
  }

  /** A group that ends the address part. */
  lemma ReadLastQuad(t: string, i: nat, j: nat, d: seq<nat>, zeroFill: int, must: bool)
    requires GroupAt(t, i, j) && |d| + 2 <= 16 && At(t, j) != '.'
    requires At(t, j) == ':' ==> At(t, j + 1) != ':' && zeroFill < 0 && |d| + 2 >= 16
    ensures var x := Quad(t[i..j]);
            Reads(t, i, d, zeroFill, must, [x], Quads(d + ItemBytes(x), zeroFill, j))
  {
    var x := Quad(t[i..j]);
    NoItems();
    FirstItem(x, []);
    QuadBytes(t[i..j]);
    assert [x] + [] == [x];
    hide Numeral, Expanded, Written, Gaps;
    assert ItemBytes(x) + [] == ItemBytes(x);
    assert t[i..j] + "" + "" == t[i..j];
  }

  lemma EndsAfter(t: string, e: nat, x: Item, rest: seq<Item>, n: nat, filled: bool)
    requires x.Quad? && rest != []
    ensures Ends(t, e, [x] + rest, n, filled) <==> Ends(t, e, rest, n + 2, filled)
  {
    FirstItem(x, rest);
    assert |ItemBytes(x)| == 2;
    hide Bytes, Written, Gaps, GapAt, AreItems, ItemBytes, ItemText;
  }

  /** Past the double colon, only the last item and the bytes matter. */
  lemma EndsAfterGap(t: string, e: nat, x: Item, rest: seq<Item>, n: nat)
    requires x.Quad?
    ensures Ends(t, e, [x] + ([Gap] + rest), n, false) <==> Ends(t, e, rest, n + 2, true)
  {
    FirstGap(rest);
    FirstItem(x, [Gap] + rest);
    hide Bytes, Written, Gaps, GapAt, AreItems, ItemBytes, ItemText;
    var items := [x] + ([Gap] + rest);
    assert items[|items| - 1] == if rest == [] then Gap else rest[|rest| - 1];
  }

  lemma RestAfter(x: Item, rest: seq<Item>, n: nat, filled: bool, must: bool)
    requires x.Quad? && IsItem(x) && IsRest(rest, n + 2, filled, true)
    ensures IsRest([x] + rest, n, filled, must)
  {
    FirstItem(x, rest);
    assert |ItemBytes(x)| == 2;
    hide Bytes, Written, Gaps, GapAt, AreItems, ItemBytes, ItemText;
  }

  lemma RestAfterGap(x: Item, rest: seq<Item>, n: nat, must: bool)
    requires x.Quad? && IsItem(x) && IsRest(rest, n + 2, true, false)
    ensures IsRest([x] + ([Gap] + rest), n, false, must)
  {
    FirstGap(rest);
    FirstItem(x, [Gap] + rest);
    assert |ItemBytes(x)| == 2;
    hide Bytes, Written, Gaps, GapAt, AreItems, ItemBytes, ItemText;
  }

  /** A group, a colon and more. */
  lemma ReadQuad(t: string, i: nat, j: nat, x: Item, d: seq<nat>, zeroFill: int, must: bool, rest: seq<Item>, q: Quads)
    requires GroupAt(t, i, j) && At(t, j) == ':' && x == Quad(t[i..j])
    requires Reads(t, j + 1, d + ItemBytes(x), zeroFill, true, rest, q)
    ensures Reads(t, i, d, zeroFill, must, [x] + rest, q)
  {
    hide Bytes, Written, Gaps, GapAt, AreItems, ItemBytes, ItemText, IsItem, Ends;
    QuadBytes(t[i..j]);
    assert |d + ItemBytes(x)| == |d| + 2;
    FirstItem(x, rest);
    EndsAfter(t, q.next, x, rest, |d|, zeroFill >= 0);
    RestAfter(x, rest, |d|, zeroFill >= 0, must);
    SplitAt(t, i, j, j + 1, q.next);
    assert t[j..j + 1] == ":";
    Appended(d, ItemBytes(x), Bytes(rest));
  }

  lemma AroundGap(a: string, b: string)
    ensures a + "" + ("::" + b) == a + "::" + b
  {
    assert a + "" == a;
    Appended(a, "::", b);
  }

  /** A group, the double colon and more. */
  lemma ReadGap(t: string, i: nat, j: nat, x: Item, d: seq<nat>, must: bool, rest: seq<Item>, q: Quads)
    requires GroupAt(t, i, j) && At(t, j) == ':' && At(t, j + 1) == ':' && x == Quad(t[i..j])
    requires Reads(t, j + 2, d + ItemBytes(x), |d + ItemBytes(x)|, false, rest, q)
    ensures Reads(t, i, d, -1, must, [x] + ([Gap] + rest), q)
  {
    hide Bytes, Written, Gaps, GapAt, AreItems, ItemBytes, ItemText, IsItem, Ends;
    QuadBytes(t[i..j]);
    assert |d + ItemBytes(x)| == |d| + 2;
    FirstGap(rest);
    FirstItem(x, [Gap] + rest);
    EndsAfterGap(t, q.next, x, rest, |d|);
    RestAfterGap(x, rest, |d|, must);
    assert Gaps(rest) == 0;
    SplitAt(t, i, j, j + 2, q.next);
    assert t[j..j + 2] == "::";
    Appended(d, ItemBytes(x), Bytes(rest));
    AroundGap(t[i..j], t[j + 2..q.next]);
  }

  /** The parser stops after items of the grammar, having read them. */
  lemma {:induction false} QuadsAre(t: string, i: nat, d: seq<nat>, zeroFill: int, must: bool)
    returns (items: seq<Item>)
    requires i <= |t| && |d| <= 16 && |d| % 2 == 0 && zeroFill >= -1 && ParseQuads(t, i, d, zeroFill, must).Some?
    ensures Reads(t, i, d, zeroFill, must, items, ParseQuads(t, i, d, zeroFill, must).value)
    decreases |t| - i
  {
    hide Reads, Dotted, MoreDigits, ItemBytes;
    TurnAdvances(t, i, d, zeroFill, must);
    if HexVal(At(t, i)) < 0 {
      ReadNothing(t, i, d, zeroFill);
      items := [];
    } else {
      GroupRead(t, i);
      var (v, j) := MoreDigits(t, i + 1, HexVal(At(t, i)), 3);
      var x := Quad(t[i..j]);
      QuadBytes(t[i..j]);
      if At(t, j) == '.' {
        items := ReadDots(t, i, d, zeroFill, must);
      } else if At(t, j) == ':' && At(t, j + 1) == ':' {
        var rest := QuadsAre(t, j + 2, d + ItemBytes(x), |d + ItemBytes(x)|, false);
        ReadGap(t, i, j, x, d, must, rest, ParseQuads(t, i, d, zeroFill, must).value);
        items := [x] + ([Gap] + rest);
      } else if At(t, j) == ':' && !(zeroFill < 0 && |d| + 2 >= 16) {
        var rest := QuadsAre(t, j + 1, d + ItemBytes(x), zeroFill, true);
        ReadQuad(t, i, j, x, d, zeroFill, must, rest, ParseQuads(t, i, d, zeroFill, must).value);
        items := [x] + rest;
      } else {
        ReadLastQuad(t, i, j, d, zeroFill, must);
        items := [x];
      }
    }
  }

  // ---------------------------------------------------------------- reading all of them

  lemma {:induction false} RestOfItems(items: seq<Item>)
    requires items != [] && AreItems(items) && !items[0].Gap?
    ensures AreItems(items[1..]) && items == [items[0]] + items[1..] && IsItem(items[0])
    ensures items[0].Dots? ==> items[1..] == []
    ensures |ItemBytes(items[0])| == if items[0].Quad? then 2 else 4
  {
    var rest := items[1..];
    forall k | 0 <= k < |rest| ensures IsItem(rest[k]) && (rest[k].Dots? ==> k == |rest| - 1) {
      assert rest[k] == items[k + 1];
    }
  }

  /** An item that is not a gap starts with a digit. */
  lemma StartsWithDigit(items: seq<Item>)
    requires items != [] && AreItems(items) && !items[0].Gap?
    ensures Written(items) != "" && HexVal(Written(items)[0]) >= 0
  {
    RestOfItems(items);
    FirstItem(items[0], items[1..]);
    match items[0]
    case Quad(digits) => assert HexVal(digits[0]) >= 0;
    case Dots(parts) =>
      assert IsOctet(parts[0]) && DecVal(parts[0][0]) >= 0;
      DigitValues(parts[0][0]);
      assert DotText(parts)[0] == parts[0][0];
  }

  lemma GroupTo(t: string, i: nat, j: nat, digits: string)
    requires i <= j <= |t| && t[i..j] == digits && 1 <= |digits| <= 4 && IsHex(digits)
    requires |digits| == 4 || HexVal(At(t, j)) < 0
    ensures HexVal(At(t, i)) >= 0
    ensures MoreDigits(t, i + 1, HexVal(At(t, i)), 3) == (Numeral(digits, 16), j)
  {
    HexChars(t, i, j);
    GroupRead(t, i);
    GroupAtOnce(t, i, j, MoreDigits(t, i + 1, HexVal(At(t, i)), 3).1);
  }

  /** The first octet of a dotted decimal reads as a group, and its dot gives it away. */
  lemma DotsTurn(t: string, i: nat, d: seq<nat>, zeroFill: int, must: bool, parts: seq<string>, j: nat)
    requires i <= j <= |t| && |parts| == 4 && AreOctets(parts) && |d| + 4 <= 16
    requires t[i..j] == DotText(parts) && OctetEnds(t, j, parts)
    ensures ParseOne(t, i, d, zeroFill, must) == Finished(Quads(d + OctetValues(parts), zeroFill, j))
  {
    hide DotText, OctetValues, Numeral, MoreDigits, Dotted;
    DotHead(t, i, parts, j);
    var first := parts[0];
    assert IsOctet(first);
    forall k | 0 <= k < |first| ensures HexVal(first[k]) >= 0 { DigitValues(first[k]); }
    GroupTo(t, i, i + |first|, first);
    DottedTo(t, i, d, parts, j);
  }

  /** A group that is the last item. */
  lemma LastTurn(t: string, i: nat, d: seq<nat>, zeroFill: int, must: bool, x: Item, j: nat)
    requires i <= j <= |t| && x.Quad? && IsItem(x) && |d| + 2 <= 16 && t[i..j] == x.digits
    requires At(t, j) != '.' && (|x.digits| == 4 || HexVal(At(t, j)) < 0)
    requires At(t, j) == ':' ==> At(t, j + 1) != ':' && zeroFill < 0 && |d| + 2 >= 16
    ensures ParseOne(t, i, d, zeroFill, must) == Finished(Quads(d + ItemBytes(x), zeroFill, j))
  {
    hide Numeral, MoreDigits;
    GroupTo(t, i, j, x.digits);
  }

  /** A group with a colon after it. */
  lemma ColonTurn(t: string, i: nat, d: seq<nat>, zeroFill: int, must: bool, x: Item, k: nat)
    requires i <= k < |t| && x.Quad? && IsItem(x) && |d| + 2 <= 16 && t[i..k] == x.digits && t[k] == ':'
    requires if At(t, k + 1) == ':' then zeroFill < 0 else zeroFill >= 0 || |d| + 2 < 16
    ensures ParseOne(t, i, d, zeroFill, must)
         == if At(t, k + 1) == ':' then Onward(k + 2, d + ItemBytes(x), |d| + 2, false)
            else Onward(k + 1, d + ItemBytes(x), zeroFill, true)
  {
    hide Numeral, MoreDigits;
    GroupTo(t, i, k, x.digits);
  }

  lemma NothingToRead(t: string, i: nat, d: seq<nat>, zeroFill: int)
    requires HexVal(At(t, i)) < 0
    ensures ParseQuads(t, i, d, zeroFill, false) == Some(Quads(d + Bytes([]), zeroFill, i)) && Gaps([]) == 0
  {
    assert d + [] == d;
  }

  lemma LastItem(t: string, i: nat, d: seq<nat>, zeroFill: int, must: bool, x: Item, j: nat)
    requires !x.Gap? && Stand(t, i, j, [x], |d|, zeroFill >= 0, must)
    ensures ParseOne(t, i, d, zeroFill, must) == Finished(Quads(d + Bytes([x]), zeroFill, j))
    ensures Gaps([x]) == 0
  {
    hide Written, GapAt, Gaps, Expanded, OctetValues, ParseOne, DotText, AreOctets;
    RestOfItems([x]);
    NoItems();
    FirstItem(x, []);
    assert [x] + [] == [x];
    assert ItemText(x) + "" + "" == ItemText(x) && ItemBytes(x) + [] == ItemBytes(x);
    if x.Quad? {
      LastTurn(t, i, d, zeroFill, must, x, j);
    } else {
      DotsTurn(t, i, d, zeroFill, must, x.parts, j);
    }
  }

  lemma ReadPastGap(t: string, i: nat, d: seq<nat>, zeroFill: int, must: bool, x: Item, rest: seq<Item>, j: nat)
    requires x.Quad? && Stand(t, i, j, [x] + ([Gap] + rest), |d|, zeroFill >= 0, must)
    ensures ParseOne(t, i, d, zeroFill, must) == Onward(i + |x.digits| + 2, d + ItemBytes(x), |d| + 2, false)
    ensures Stand(t, i + |x.digits| + 2, j, rest, |d| + 2, true, false)
  {
    hide Written, GapAt, Gaps, Bytes, AreItems, ItemBytes, ParseOne, IsItem;
    var items := [x] + ([Gap] + rest);
    RestOfItems(items);
    assert items[1..] == [Gap] + rest;
    FirstItem(x, [Gap] + rest);
    FirstGap(rest);
    GapFirst(rest);
    EndsAfterGap(t, j, x, rest, |d|);
    hide Ends;
    AroundGap(x.digits, Written(rest));
    Pieces(t, i, j, x.digits, "::", Written(rest));
    var k := i + |x.digits|;
    TwoColons(t, k);
    IsQuad(x);
    ColonTurn(t, i, d, zeroFill, must, x, k);
  }

  lemma TwoColons(t: string, k: nat)
    requires k + 2 <= |t| && t[k..k + 2] == "::"
    ensures t[k] == ':' && t[k + 1] == ':'
  {
    var s := t[k..k + 2];
    assert s[0] == t[k] && s[1] == t[k + 1];
  }

  lemma IsQuad(x: Item)
    requires x.Quad? && IsItem(x)
    ensures |ItemBytes(x)| == 2 && 1 <= |x.digits| <= 4
  {
  }

  /** After one double colon there is no other. */
  lemma GapFirst(rest: seq<Item>)
    ensures Gaps(rest) == 0 && rest != [] ==> !rest[0].Gap?
    ensures AreItems([Gap] + rest) ==> AreItems(rest)
  {
    var items := [Gap] + rest;
    if AreItems(items) {
      forall k | 0 <= k < |rest| ensures IsItem(rest[k]) && (rest[k].Dots? ==> k == |rest| - 1) {
        assert rest[k] == items[k + 1];
      }
    }
  }

  lemma ReadPastColon(t: string, i: nat, d: seq<nat>, zeroFill: int, must: bool, x: Item, rest: seq<Item>, j: nat)
    requires x.Quad? && rest != [] && !rest[0].Gap? && Stand(t, i, j, [x] + rest, |d|, zeroFill >= 0, must)
    ensures ParseOne(t, i, d, zeroFill, must) == Onward(i + |x.digits| + 1, d + ItemBytes(x), zeroFill, true)
    ensures Stand(t, i + |x.digits| + 1, j, rest, |d| + 2, zeroFill >= 0, true)
  {
    hide Written, GapAt, Gaps, Bytes, AreItems, ItemBytes, ParseOne, IsItem;
    var items := [x] + rest;
    RestOfItems(items);
    assert items[1..] == rest;
    FirstItem(x, rest);
    EndsAfter(t, j, x, rest, |d|, zeroFill >= 0);
    hide Ends;
    Pieces(t, i, j, x.digits, ":", Written(rest));
    var k := i + |x.digits|;
    assert t[k..k + 1][0] == ':';
    StartsWithDigit(rest);
    assert t[k + 1..j][0] == t[k + 1];
    IsQuad(x);
    RestOfItems(rest);
    FirstItem(rest[0], rest[1..]);
    ColonTurn(t, i, d, zeroFill, must, x, k);
  }

  /** Items of the grammar are read to their end. */
  lemma {:induction false} ReadAll(t: string, i: nat, d: seq<nat>, zeroFill: int, must: bool, items: seq<Item>, j: nat)
    requires zeroFill >= -1 && Stand(t, i, j, items, |d|, zeroFill >= 0, must)
    ensures ParseQuads(t, i, d, zeroFill, must) == Some(Quads(d + Bytes(items), Filled(d, zeroFill, items), j))
    decreases |items|
  {
    hide Bytes, Written, Gaps, GapAt, AreItems, ItemBytes, ItemText, Ends, ParseOne, OctetValues;
    if items == [] {
      NothingStands(t, i, j, |d|, zeroFill >= 0, must);
      NothingToRead(t, i, d, zeroFill);
    } else {
      var x, rest := items[0], items[1..];
      RestOfItems(items);
      FirstItem(x, rest);
      if rest == [] {
        assert items == [x];
        LastItem(t, i, d, zeroFill, must, x, j);
      } else if rest[0].Gap? {
        var after := rest[1..];
        assert rest == [Gap] + after;
        FirstGap(after);
        ReadPastGap(t, i, d, zeroFill, must, x, after, j);
        ReadAll(t, i + |x.digits| + 2, d + ItemBytes(x), |d| + 2, false, after, j);
        Appended(d, ItemBytes(x), Bytes(after));
      } else {
        ReadPastColon(t, i, d, zeroFill, must, x, rest, j);
        ReadAll(t, i + |x.digits| + 1, d + ItemBytes(x), zeroFill, true, rest, j);
        Appended(d, ItemBytes(x), Bytes(rest));
      }
    }
  }

  lemma NothingStands(t: string, i: nat, j: nat, n: nat, filled: bool, must: bool)
    requires Stand(t, i, j, [], n, filled, must)
    ensures i == j && !must && HexVal(At(t, i)) < 0
  {
    assert |t[i..j]| == j - i;
  }

  // ---------------------------------------------------------------- the address part, exactly

  function Zeros(n: nat): (z: seq<nat>)
    ensures |z| == n
  {
    seq(n, _ => 0)
  }

  lemma ZerosBehind(a: seq<nat>, b: seq<nat>, g: nat, z: seq<nat>)
    requires g <= |b|
    ensures a + (b[..g] + z + b[g..]) == (a + b)[..|a| + g] + z + (a + b)[|a| + g..]
  {
    assert (a + b)[..|a| + g] == a + b[..g] && (a + b)[|a| + g..] == b[g..];
    assert a + (b[..g] + z + b[g..]) == a + b[..g] + z + b[g..];
  }

  /** The zeros go where the double colon stands. */
  lemma {:induction false} ZerosGoIn(items: seq<Item>, n: nat)
    requires Gaps(items) <= 1
    ensures Gaps(items) == 0 ==> Expanded(items, n) == Bytes(items)
    ensures Gaps(items) == 1 ==>
              && GapAt(items) <= |Bytes(items)|
              && Expanded(items, n) == Bytes(items)[..GapAt(items)] + Zeros(n) + Bytes(items)[GapAt(items)..]
  {
    hide ItemBytes;
    if items != [] {
      var x, rest := items[0], items[1..];
      ZerosGoIn(rest, n);
      if x.Gap? {
        NoZeros(Bytes(rest));
        assert Bytes(rest)[..0] + Zeros(n) == Zeros(n);
      } else if Gaps(rest) == 1 {
        ZerosBehind(ItemBytes(x), Bytes(rest), GapAt(rest), Zeros(n));
      }
    }
  }

  /** An address stands from i to j. */
  ghost predicate AddressAt(t: string, i: nat, j: nat, items: seq<Item>) {
    i <= j <= |t| && IsAddress(items) && t[i..j] == Written(items) && Ends(t, j, items, 0, false)
  }

  /** What the parser holds before the zeros are put in. */
  function Collected(items: seq<Item>, j: nat): Quads {
    Quads(Bytes(items), if Gaps(items) > 0 then GapAt(items) else -1, j)
  }

  lemma FillsIn(items: seq<Item>, j: nat)
    requires Gaps(items) <= 1 && |Bytes(items)| <= 16
    ensures var q := Collected(items, j);
            && q.zeroFill <= |q.d|
            && FillZeros(q) == if (if Gaps(items) == 0 then |Bytes(items)| == 16 else |Bytes(items)| < 16)
                               then Some(AddressBytes(items)) else None
  {
    ZerosGoIn(items, 16 - |Bytes(items)|);
  }

  lemma EndsAfterLead(t: string, e: nat, rest: seq<Item>)
    ensures Ends(t, e, [Gap] + rest, 0, false) <==> Ends(t, e, rest, 0, true)
  {
    FirstGap(rest);
    hide Bytes, Written, Gaps, GapAt, AreItems, ItemBytes, ItemText;
    var items := [Gap] + rest;
    assert items[|items| - 1] == if rest == [] then Gap else rest[|rest| - 1];
  }

  lemma BodyIs(t: string, i: nat) returns (items: seq<Item>)
    requires i <= |t| && ParseBody(t, i).Some?
    ensures var q := ParseBody(t, i).value;
            && i <= q.next <= |t| && items != [] && AreItems(items) && Gaps(items) <= 1 && |Bytes(items)| <= 16
            && t[i..q.next] == Written(items) && Ends(t, q.next, items, 0, false) && q == Collected(items, q.next)
  {
    hide Bytes, Written, Gaps, GapAt, AreItems, Ends, ParseQuads;
    var q := ParseBody(t, i).value;
    if At(t, i) == ':' && At(t, i + 1) == ':' {
      var rest := QuadsAre(t, i + 2, [], 0, false);
      items := [Gap] + rest;
      FirstGap(rest);
      EndsAfterLead(t, q.next, rest);
      assert t[i..q.next] == "::" + t[i + 2..q.next];
    } else {
      items := QuadsAre(t, i, [], -1, true);
    }
    assert [] + Bytes(items) == Bytes(items);
  }

  lemma BodyTo(t: string, i: nat, j: nat, items: seq<Item>)
    requires AddressAt(t, i, j, items)
    ensures ParseBody(t, i) == Some(Collected(items, j))
  {
    hide Bytes, Written, Gaps, GapAt, AreItems, Ends, ParseQuads;
    assert [] + Bytes(items) == Bytes(items);
    if items[0].Gap? {
      var rest := items[1..];
      assert items == [Gap] + rest;
      FirstGap(rest);
      GapFirst(rest);
      EndsAfterLead(t, j, rest);
      assert "::" + Written(rest) == "" + "::" + Written(rest);
      Pieces(t, i, j, "", "::", Written(rest));
      TwoColons(t, i);
      ReadAll(t, i + 2, [], 0, false, rest, j);
    } else {
      StartsWithDigit(items);
      assert t[i..j][0] == t[i];
      ReadAll(t, i, [], -1, true, items, j);
    }
  }

  /** The address part is read exactly where an address stands, and as what it means. */
  lemma AddressExactly(t: string, i: nat, ip: seq<nat>, j: nat)
    requires i <= |t|
    ensures ParseIP(t, i) == Some((ip, j)) <==>
            exists items :: AddressAt(t, i, j, items) && ip == AddressBytes(items)
  {
    hide Bytes, Written, Gaps, GapAt, AreItems, Ends, ParseBody, FillZeros, AddressBytes;
    if ParseIP(t, i) == Some((ip, j)) {
      var items := BodyIs(t, i);
      FillsIn(items, j);
      assert AddressAt(t, i, j, items) && ip == AddressBytes(items);
    }
    if items :| AddressAt(t, i, j, items) && ip == AddressBytes(items) {
      BodyTo(t, i, j, items);
      FillsIn(items, j);
    }
  }
}
