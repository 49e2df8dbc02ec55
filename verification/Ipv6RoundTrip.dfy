/** Printed addresses are parsed back: the text is one of the grammar, and means what was
printed. */
module Ipv6RoundTrip {
  import opened Wrappers
  import opened Ipv6Parse
  import opened Ipv6Lexer
  import opened Ipv6Grammar
  import opened Ipv6Text
  import opened Texts
  import P = Ipv6Print

  // ---------------------------------------------------------------- numbers

  lemma {:induction false} DecSpells(n: nat)
    ensures P.Dec(n) != "" && IsDecimal(P.Dec(n)) && Numeral(P.Dec(n), 10) == n
    ensures P.Dec(n)[0] == '0' ==> n == 0
    ensures n < 10 ==> |P.Dec(n)| == 1
    ensures n < 100 ==> |P.Dec(n)| <= 2
    ensures n < 1000 ==> |P.Dec(n)| <= 3
  {
    if n >= 10 {
      DecSpells(n / 10);
      NumeralStep(P.Dec(n / 10), P.DecDigit(n % 10), 10);
    } else {
      NumeralStep("", P.DecDigit(n), 10);
      assert "" + [P.DecDigit(n)] == P.Dec(n);
    }
  }

  lemma {:induction false} HexSpells(q: nat)
    ensures P.Hex(q) != "" && IsHex(P.Hex(q)) && Numeral(P.Hex(q), 16) == q
    ensures q < 65536 ==> |P.Hex(q)| <= 4
  {
    P.HexIsCanonical(q);
    if q >= 16 {
      HexSpells(q / 16);
      NumeralStep(P.Hex(q / 16), P.HexDigit(q % 16), 16);
    } else {
      NumeralStep("", P.HexDigit(q), 16);
      assert "" + [P.HexDigit(q)] == P.Hex(q);
    }
  }

  function Pow10(k: nat): nat {
    if k == 0 then 1 else 10 * Pow10(k - 1)
  }

  lemma {:induction false} DecLength(n: nat, k: nat)
    requires k >= 1 && n < Pow10(k)
    ensures |P.Dec(n)| <= k
  {
    if n >= 10 { DecLength(n / 10, k - 1); }
  }

  // ---------------------------------------------------------------- groups

  function BytesOf(gs: seq<P.Group>): seq<nat> {
    if gs == [] then [] else [gs[0] / 256, gs[0] % 256] + BytesOf(gs[1..])
  }

  lemma {:induction false} BytesLength(gs: seq<P.Group>)
    ensures |BytesOf(gs)| == 2 * |gs|
  {
    if gs != [] { BytesLength(gs[1..]); }
  }

  lemma {:induction false} BytesConcat(a: seq<P.Group>, b: seq<P.Group>)
    ensures BytesOf(a + b) == BytesOf(a) + BytesOf(b)
  {
    if a == [] {
      assert a + b == b;
    } else {
      assert (a + b)[1..] == a[1..] + b;
      BytesConcat(a[1..], b);
    }
  }

  lemma {:induction false} ZeroBytes(gs: seq<P.Group>)
    requires forall i :: 0 <= i < |gs| ==> gs[i] == 0
    ensures BytesOf(gs) == seq(2 * |gs|, _ => 0)
  {
    if gs != [] { ZeroBytes(gs[1..]); }
  }

  function QuadsOf(gs: seq<P.Group>): (r: seq<Item>)
    ensures |r| == |gs|
  {
    if gs == [] then [] else [Quad(P.Hex(gs[0]))] + QuadsOf(gs[1..])
  }

  lemma QuadsOfStep(gs: seq<P.Group>, rest: seq<Item>)
    requires gs != []
    ensures QuadsOf(gs) + rest == [Quad(P.Hex(gs[0]))] + (QuadsOf(gs[1..]) + rest)
  {
    hide P.Hex;
    var x, more := Quad(P.Hex(gs[0])), QuadsOf(gs[1..]);
    assert QuadsOf(gs) == [x] + more;
    hide QuadsOf;
    Appended([x], more, rest);
  }

  lemma JoinStep(gs: seq<P.Group>)
    requires gs != []
    ensures P.Join(gs) == P.Hex(gs[0]) + (if |gs| > 1 then ":" else "") + P.Join(gs[1..])
  {
    hide P.Hex;
    if |gs| == 1 {
      assert P.Join(gs[1..]) == "";
      assert P.Hex(gs[0]) + "" + "" == P.Hex(gs[0]);
    }
  }

  function Colon(gs: seq<P.Group>, rest: seq<Item>): string {
    if gs != [] && rest != [] && !rest[0].Gap? then ":" else ""
  }

  lemma NoGroups(rest: seq<Item>)
    ensures P.Join([]) == "" && QuadsOf([]) == [] && BytesOf([]) == [] && QuadsOf([]) + rest == rest
    ensures Colon([], rest) == ""
  {
  }

  lemma QuadFirst(gs: seq<P.Group>)
    requires gs != []
    ensures QuadsOf(gs)[0].Quad?
  {
  }

  lemma Regroup(a: string, b: string, c: string, d: string, e: string)
    ensures a + b + (c + d + e) == a + b + c + d + e
  {
  }

  /** Groups in front of other items. */
  lemma {:induction false} GroupsWritten(gs: seq<P.Group>, rest: seq<Item>)
    requires AreItems(rest)
    ensures AreItems(QuadsOf(gs) + rest) && Written(QuadsOf(gs) + rest) == P.Join(gs) + Colon(gs, rest) + Written(rest)
  {
    hide P.Hex, P.Join, Written, AreItems, ItemText, IsItem, QuadsOf, Colon;
    if gs == [] {
      NoGroups(rest);
      assert "" + "" + Written(rest) == Written(rest);
    } else {
      QuadsOfStep(gs, rest);
      JoinStep(gs);
      GroupsWritten(gs[1..], rest);
      GroupWritten(gs[0], gs[1..], rest);
      assert [gs[0]] + gs[1..] == gs;
    }
  }

  lemma GroupWritten(g: P.Group, gs: seq<P.Group>, rest: seq<Item>)
    requires AreItems(QuadsOf(gs) + rest)
    requires Written(QuadsOf(gs) + rest) == P.Join(gs) + Colon(gs, rest) + Written(rest)
    ensures var items := [Quad(P.Hex(g))] + (QuadsOf(gs) + rest);
            && AreItems(items)
            && Written(items)
               == P.Hex(g) + (if gs != [] then ":" else "") + P.Join(gs) + Colon([g] + gs, rest) + Written(rest)
  {
    hide P.Hex, P.Join, Written, AreItems, IsItem, QuadsOf, Numeral, IsHex, ItemText, ItemBytes, Bytes, Gaps, GapAt;
    var h, more := P.Hex(g), QuadsOf(gs) + rest;
    HexSpells(g);
    QuadBytes(h);
    FirstItem(Quad(h), more);
    if gs == [] {
      NoGroups(rest);
      assert h + "" + "" == h && [g] + [] == [g];
    } else {
      QuadFirst(gs);
      assert more[0] == QuadsOf(gs)[0];
      Regroup(h, ":", P.Join(gs), Colon(gs, rest), Written(rest));
    }
  }

  lemma {:induction false} GroupsExpanded(gs: seq<P.Group>, rest: seq<Item>, n: nat)
    ensures Gaps(QuadsOf(gs) + rest) == Gaps(rest)
    ensures Expanded(QuadsOf(gs) + rest, n) == BytesOf(gs) + Expanded(rest, n)
  {
    hide Numeral, P.Hex, ItemBytes, QuadsOf;
    if gs == [] {
      NoGroups(rest);
    } else {
      var x, more := Quad(P.Hex(gs[0])), QuadsOf(gs[1..]) + rest;
      QuadsOfStep(gs, rest);
      GroupsExpanded(gs[1..], rest, n);
      HexSpells(gs[0]);
      QuadBytes(P.Hex(gs[0]));
      assert ([x] + more)[1..] == more && ([x] + more)[0] == x;
      Appended(ItemBytes(x), BytesOf(gs[1..]), Expanded(rest, n));
    }
  }

  // ---------------------------------------------------------------- addresses

  /** A bare address text is read as the address that its items spell. */
  lemma BareAddress(items: seq<Item>, wantPort: bool)
    requires IsAddress(items)
    ensures Parse(Written(items), wantPort) == Some(Address(AddressBytes(items), -1, 0))
  {
    hide AreItems, Gaps, Bytes, Parse, AddressBytes, Written;
    var x := AddressText("", false, "", items, None, "", NoPort(""));
    var t := Written(items);
    assert TextWritten(x) == t && t[..|t|] == t;
    assert Holds(t, x) && IsText(x) && Meaning(x) == Address(AddressBytes(items), -1, 0);
    ParseExactly(t, wantPort, Meaning(x));
  }

  lemma BytesOfGroups(ip: seq<Byte>)
    requires |ip| == 16
    ensures BytesOf(P.GroupsOf(ip)) == ip
  {
    BytesFrom(ip, 0);
    assert P.GroupsOf(ip)[0..] == P.GroupsOf(ip);
  }

  lemma {:induction false} BytesFrom(ip: seq<Byte>, i: nat)
    requires |ip| == 16 && i <= P.GROUPS
    ensures BytesOf(P.GroupsOf(ip)[i..]) == ip[2 * i..]
    decreases P.GROUPS - i
  {
    if i < P.GROUPS {
      BytesFrom(ip, i + 1);
      var gs := P.GroupsOf(ip);
      assert gs[i..][1..] == gs[i + 1..] && gs[i..][0] == P.GroupAt(ip, i);
      assert ip[2 * i..] == [ip[2 * i], ip[2 * i + 1]] + ip[2 * (i + 1)..];
    }
  }

  /** The items of a printed address. */
  function TextItems(gs: seq<P.Group>, start: int, len: nat): seq<Item>
    requires start < 0 || start + len <= |gs|
  {
    if start < 0 then QuadsOf(gs) + [] else QuadsOf(gs[..start]) + ([Gap] + (QuadsOf(gs[start + len..]) + []))
  }

  lemma GroupsOnly(gs: seq<P.Group>, n: nat)
    ensures var items := QuadsOf(gs) + [];
            && AreItems(items) && Gaps(items) == 0 && Expanded(items, n) == BytesOf(gs) && Written(items) == P.Join(gs)
            && |items| == |gs|
  {
    GroupsWritten(gs, []);
    GroupsExpanded(gs, [], n);
    hide QuadsOf, P.Join, BytesOf;
    assert P.Join(gs) + "" + "" == P.Join(gs) && BytesOf(gs) + [] == BytesOf(gs);
  }

  lemma GroupsAroundGap(pre: seq<P.Group>, rest: seq<Item>, n: nat)
    requires AreItems(rest)
    ensures var items := QuadsOf(pre) + ([Gap] + rest);
            && items != [] && AreItems(items) && Gaps(items) == 1 + Gaps(rest)
            && Expanded(items, n) == BytesOf(pre) + Zeros(n) + Expanded(rest, n)
            && Written(items) == P.Join(pre) + "::" + Written(rest)
  {
    hide AreItems, Gaps, Written, QuadsOf, BytesOf, P.Join;
    FirstGap(rest);
    GapExpanded(rest, n);
    hide Expanded;
    GroupsWritten(pre, [Gap] + rest);
    GroupsExpanded(pre, [Gap] + rest, n);
    Appended(BytesOf(pre), Zeros(n), Expanded(rest, n));
    AroundGap(P.Join(pre), Written(rest));
  }

  lemma GapExpanded(rest: seq<Item>, n: nat)
    ensures Expanded([Gap] + rest, n) == Zeros(n) + Expanded(rest, n)
  {
    assert ([Gap] + rest)[1..] == rest;
  }

  /** A printed address is one of the grammar, whichever run of zeros is compressed, and it means
  the bytes of the groups. */
  lemma PrintedIsAddress(gs: seq<P.Group>, start: int, len: nat)
    requires |gs| == P.GROUPS && (start < 0 || (P.ZeroRun(gs, start, len) && len >= 1))
    ensures var items := TextItems(gs, start, len);
            IsAddress(items) && Written(items) == P.Text(gs, start, len) && AddressBytes(items) == BytesOf(gs)
  {
    hide AreItems, Gaps, Written, QuadsOf, BytesOf, P.Join, Expanded;
    BytesLength(gs);
    if start < 0 {
      GroupsOnly(gs, 0);
    } else {
      var pre, zeros, post := gs[..start], gs[start..start + len], gs[start + len..];
      BytesLength(pre);
      BytesLength(post);
      GroupsOnly(post, 0);
      GroupsOnly(post, 2 * len);
      GroupsAroundGap(pre, QuadsOf(post) + [], 0);
      GroupsAroundGap(pre, QuadsOf(post) + [], 2 * len);
      assert |BytesOf(pre) + Zeros(0) + BytesOf(post)| == 16 - 2 * len;
      ZeroBytes(zeros);
      BytesConcat(pre, zeros);
      BytesConcat(pre + zeros, post);
      assert pre + zeros + post == gs;
    }
  }

  /** For every address, the canonical text is parsed back to the same bytes, with
  no port and no scope. */
  lemma AddressRoundTrip(ip: seq<Byte>, start: int, len: nat, wantPort: bool)
    requires |ip| == 16 && P.Compresses(P.GroupsOf(ip), start, len)
    ensures Parse(P.Text(P.GroupsOf(ip), start, len), wantPort) == Some(Address(ip, -1, 0))
  {
    hide Written, P.Text, Parse, AddressBytes, P.GroupsOf, BytesOf, TextItems;
    var gs := P.GroupsOf(ip);
    PrintedIsAddress(gs, start, len);
    BytesOfGroups(ip);
    BareAddress(TextItems(gs, start, len), wantPort);
  }

  // ---------------------------------------------------------------- address, scope and port

  /** The scope as it is printed: as a signed number, cut off after eleven characters. */
  function ScopePrinted(scope: nat): string
    requires scope < 4294967296
  {
    if scope == 0 then ""
    else if scope < 2147483648 then "%" + P.Dec(scope)
    else
      var s := "%-" + P.Dec(4294967296 - scope);
      if |s| <= 11 then s else s[..11]
  }

  lemma ScopeTextIs(scope: nat)
    requires scope < 4294967296
    ensures P.ScopeText(scope) == ScopePrinted(scope)
  {
    if scope < 2147483648 { DecLength(scope, 10); }
    hide P.Dec;
    MinusFirst(P.Dec(4294967296 - scope));
  }

  lemma MinusFirst(d: string)
    ensures "%" + ("-" + d) == "%-" + d
  {
  }

  lemma PrintedExactly(x: string, port: nat, scope: nat)
    requires port < 65536 && scope < 4294967296
    ensures P.AddrText(x, port, scope) == "[" + x + ScopePrinted(scope) + "]:" + P.Dec(port)
  {
    DecLength(port, 5);
    ScopeTextIs(scope);
    hide P.Dec, P.ScopeText, ScopePrinted;
    Appended("[" + x + ScopePrinted(scope), "]:", P.Dec(port));
  }

  /** A bracketed text with a scope, or none, and a port. */
  lemma BracketedAddress(items: seq<Item>, scope: Option<string>, port: string)
    requires IsAddress(items) && IsScope(scope) && IsPortNumber(port)
    ensures Parse("[" + Written(items) + ScopeWritten(scope) + "]:" + port, true)
         == Some(Address(AddressBytes(items), Numeral(port, 10), ScopeNumber(scope)))
  {
    hide AreItems, Gaps, Bytes, Parse, AddressBytes, Written, ScopeWritten, Numeral;
    var x := AddressText("", true, "", items, scope, "", Mark(':', port, ""));
    var t := "[" + Written(items) + ScopeWritten(scope) + "]:" + port;
    BracketedText(Written(items), ScopeWritten(scope), port);
    assert TextWritten(x) == t && t[..|t|] == t;
    assert Holds(t, x) && IsText(x);
    ParseExactly(t, true, Meaning(x));
  }

  lemma BracketedText(w: string, s: string, port: string)
    ensures "" + ("[" + "") + w + s + ("" + "]") + ([':'] + port + "") == "[" + w + s + "]:" + port
  {
    assert "]:" + port == "]" + (":" + port);
    assert "[" + w + s + "]:" + port == "[" + w + s + ("]:" + port);
    assert "[" + w + s + "]" + (":" + port) == "[" + w + s + ("]" + (":" + port));
  }

  /** A scope that starts with a minus sign is refused. */
  lemma NegativeScope(items: seq<Item>, t: string, rest: string)
    requires IsAddress(items) && t == "[" + Written(items) + ("%-" + rest)
    ensures Parse(t, true).None?
  {
    hide AreItems, Gaps, Bytes, AddressBytes, Written, ParseIP, ParseHead, IsScope, Ends;
    var w := Written(items);
    var b := 1 + |w|;
    assert t[..1] == HeadWritten("", true, "") && t[1..b] == w;
    assert t[b] == '%' && t[b + 1] == '-';
    HeadStands(t, 1, b, "", true, "", items);
    ParseHeadTo(t, 1, "", true, "");
    AddressStands(t, 1, b, true, items, None, NoPort(""));
    AddressTo(t, 1, b, items);
  }

  /** For every address, port and scope, parsing the printed text gives them back
  exactly when the scope is below 2^31; otherwise it fails. */
  lemma FullRoundTrip(ip: seq<Byte>, start: int, len: nat, port: nat, scope: nat)
    requires |ip| == 16 && P.Compresses(P.GroupsOf(ip), start, len) && (start < 0 || start + len <= P.GROUPS)
    requires port < 65536 && scope < 4294967296
    ensures Parse(P.AddrText(P.Text(P.GroupsOf(ip), start, len), port, scope), true) ==
            if scope < 2147483648 then Some(Address(ip, port, scope)) else None
  {
    hide Written, P.Text, Parse, AddressBytes, P.GroupsOf, BytesOf, TextItems, P.AddrText, P.Dec, Numeral;
    hide AreItems, Gaps, Bytes;
    var gs := P.GroupsOf(ip);
    var items := TextItems(gs, start, len);
    var x := P.Text(gs, start, len);
    PrintedIsAddress(gs, start, len);
    BytesOfGroups(ip);
    PrintedExactly(x, port, scope);
    DecSpells(port);
    if scope < 2147483648 {
      DecSpells(scope);
      SmallScope(scope);
      BracketedAddress(items, if scope == 0 then None else Some(P.Dec(scope)), P.Dec(port));
    } else {
      MinusSign(scope);
      var rest := ScopePrinted(scope)[2..];
      MinusText("[" + x, rest, P.Dec(port));
      NegativeScope(items, "[" + x + ("%-" + rest) + "]:" + P.Dec(port), rest + ("]:" + P.Dec(port)));
    }
  }

  lemma MinusText(a: string, rest: string, port: string)
    ensures a + ("%-" + rest) + "]:" + port == a + ("%-" + (rest + ("]:" + port)))
  {
    Appended(a + ("%-" + rest), "]:", port);
    Appended(a, "%-" + rest, "]:" + port);
    Appended("%-", rest, "]:" + port);
  }

  lemma SmallScope(n: nat)
    requires n < 4294967296
    ensures n % 4294967296 == n
  {
  }

  lemma MinusSign(scope: nat)
    requires 2147483648 <= scope < 4294967296
    ensures var s := ScopePrinted(scope); |s| >= 2 && s == "%-" + s[2..]
  {
    hide P.Dec;
    var s := "%-" + P.Dec(4294967296 - scope);
    assert s[..2] == "%-";
  }
}
