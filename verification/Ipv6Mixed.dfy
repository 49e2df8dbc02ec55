/** The mixed notation: groups, then the last four bytes as a dotted decimal. */
module Ipv6Mixed {
  import opened Wrappers
  import opened Ipv6Parse
  import opened Ipv6Lexer
  import opened Ipv6Grammar
  import opened Texts
  import opened Ipv6RoundTrip
  import P = Ipv6Print

  /** Four bytes in decimal. */
  function Octets(v: seq<Byte>): (r: seq<string>)
    requires |v| == 4
    ensures |r| == 4
  {
    [P.Dec(v[0]), P.Dec(v[1]), P.Dec(v[2]), P.Dec(v[3])]
  }

  lemma ThreeMore(b: string, c: string, d: string)
    ensures DotText([b, c, d]) == b + "." + (c + "." + d)
    ensures OctetValues([b, c, d]) == [Numeral(b, 10), Numeral(c, 10), Numeral(d, 10)]
  {
    hide Numeral;
    assert [b, c, d][1..] == [c, d] && [c, d][1..] == [d] && [d][1..] == [];
    assert DotText([c, d]) == c + "." + d && OctetValues([d]) == [Numeral(d, 10)];
    assert OctetValues([c, d]) == [Numeral(c, 10), Numeral(d, 10)];
  }

  lemma FourParts(a: string, b: string, c: string, d: string)
    ensures DotText([a, b, c, d]) == a + "." + b + "." + c + "." + d
    ensures OctetValues([a, b, c, d]) == [Numeral(a, 10), Numeral(b, 10), Numeral(c, 10), Numeral(d, 10)]
  {
    ThreeMore(b, c, d);
    assert [a, b, c, d][1..] == [b, c, d];
    hide Numeral;
    Appended(c, ".", d);
    Regroup(b, ".", c, ".", d);
    Regroup(a, ".", b + "." + c, ".", d);
    Regroup(a, ".", b, ".", c);
  }

  lemma OctetsSpell(v: seq<Byte>)
    requires |v| == 4
    ensures AreOctets(Octets(v)) && OctetValues(Octets(v)) == v
    ensures DotText(Octets(v)) == P.Dec(v[0]) + "." + P.Dec(v[1]) + "." + P.Dec(v[2]) + "." + P.Dec(v[3])
  {
    hide P.Dec, Numeral, DotText, OctetValues;
    DecSpells(v[0]);
    DecSpells(v[1]);
    DecSpells(v[2]);
    DecSpells(v[3]);
    FourParts(P.Dec(v[0]), P.Dec(v[1]), P.Dec(v[2]), P.Dec(v[3]));
  }

  function DottedDecimal(v: seq<Byte>): string
    requires |v| == 4
  {
    P.Dec(v[0]) + "." + P.Dec(v[1]) + "." + P.Dec(v[2]) + "." + P.Dec(v[3])
  }

  /** Groups, each followed by a colon, and four bytes in decimal. */
  function MixedText(gs: seq<P.Group>, v: seq<Byte>): string
    requires |v| == 4
  {
    P.Join(gs) + (if gs == [] then "" else ":") + DottedDecimal(v)
  }

  lemma LastDots(v: seq<Byte>, n: nat)
    requires |v| == 4
    ensures var items := [Dots(Octets(v))];
            AreItems(items) && Gaps(items) == 0 && Expanded(items, n) == v && Written(items) == DottedDecimal(v)
  {
    hide P.Dec, DotText, OctetValues, AreOctets;
    OctetsSpell(v);
    assert [Dots(Octets(v))][1..] == [];
  }

  /** Groups and a dotted decimal, as items. */
  function MixedItems(gs: seq<P.Group>, v: seq<Byte>): seq<Item>
    requires |v| == 4
  {
    QuadsOf(gs) + [Dots(Octets(v))]
  }

  lemma MixedIs(gs: seq<P.Group>, v: seq<Byte>, n: nat)
    requires |v| == 4
    ensures var items := MixedItems(gs, v);
            && AreItems(items) && Gaps(items) == 0 && Expanded(items, n) == BytesOf(gs) + v
            && Written(items) == MixedText(gs, v)
  {
    hide AreItems, Gaps, Expanded, Written, QuadsOf, P.Join, DottedDecimal;
    LastDots(v, n);
    GroupsWritten(gs, [Dots(Octets(v))]);
    GroupsExpanded(gs, [Dots(Octets(v))], n);
  }

  /** Six groups and a dotted decimal are the address of those bytes. */
  lemma MixedRoundTrip(gs: seq<P.Group>, v: seq<Byte>, wantPort: bool)
    requires |gs| == 6 && |v| == 4
    ensures Parse(MixedText(gs, v), wantPort) == Some(Address(BytesOf(gs) + v, -1, 0))
  {
    hide AreItems, Gaps, Expanded, Written, QuadsOf, BytesOf, MixedText, MixedItems;
    var items := MixedItems(gs, v);
    MixedIs(gs, v, 0);
    BytesLength(gs);
    assert items != [] by { MixedNotEmpty(gs, v); }
    BareAddress(items, wantPort);
  }

  lemma MixedNotEmpty(gs: seq<P.Group>, v: seq<Byte>)
    requires |v| == 4
    ensures MixedItems(gs, v) != []
  {
  }

  /** With a double colon, zeros stand between the groups before it and what follows. */
  lemma MixedGapRoundTrip(pre: seq<P.Group>, gs: seq<P.Group>, v: seq<Byte>, wantPort: bool)
    requires |pre| + |gs| <= 5 && |v| == 4
    ensures Parse(P.Join(pre) + "::" + MixedText(gs, v), wantPort)
         == Some(Address(BytesOf(pre) + Zeros(12 - 2 * |pre| - 2 * |gs|) + (BytesOf(gs) + v), -1, 0))
  {
    hide AreItems, Gaps, Expanded, Written, QuadsOf, BytesOf, MixedText, MixedItems, P.Join, Parse, Zeros;
    var z := 12 - 2 * |pre| - 2 * |gs|;
    var rest := MixedItems(gs, v);
    var items := QuadsOf(pre) + ([Gap] + rest);
    MixedIs(gs, v, 0);
    MixedIs(gs, v, z);
    GroupsAroundGap(pre, rest, 0);
    GroupsAroundGap(pre, rest, z);
    BytesLength(gs);
    BytesLength(pre);
    GapLength(BytesOf(pre), BytesOf(gs), v);
    assert |Bytes(items)| == 16 - z;
    BareAddress(items, wantPort);
  }

  lemma GapLength(a: seq<nat>, b: seq<nat>, v: seq<nat>)
    ensures |a + Zeros(0) + (b + v)| == |a| + |b| + |v|
  {
  }
}
