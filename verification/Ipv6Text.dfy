/** Whole IPv6 texts: blanks, brackets, scope and port around an address.  The parser accepts
exactly the texts of this grammar, and gives each what it means. */
module Ipv6Text {
  import opened Wrappers
  import opened Ipv6Parse
  import opened Ipv6Lexer
  import opened Ipv6Grammar
  import opened Texts

  /** What follows the address: nothing, a mark and a number, or the word and a number. */
  datatype PortText =
    | NoPort(blank: string)
    | Mark(mark: char, digits: string, blank: string)
    | Word(before: string, between: string, digits: string, blank: string)

  /** An address, perhaps in brackets. */
  datatype AddressText = AddressText(lead: string, bracket: bool, open: string, items: seq<Item>,
                                     scope: Option<string>, close: string, port: PortText)

  function PortWritten(p: PortText): string {
    match p
    case NoPort(blank) => blank
    case Mark(mark, digits, blank) => [mark] + digits + blank
    case Word(before, between, digits, blank) => before + "port" + between + digits + blank
  }

  function HeadWritten(lead: string, bracket: bool, open: string): string {
    lead + if bracket then "[" + open else ""
  }

  function ScopeWritten(scope: Option<string>): string {
    if scope.Some? then "%" + scope.value else ""
  }

  function CloseWritten(bracket: bool, close: string): string {
    if bracket then close + "]" else ""
  }

  function TextWritten(x: AddressText): string {
    HeadWritten(x.lead, x.bracket, x.open) + Written(x.items) + ScopeWritten(x.scope)
    + CloseWritten(x.bracket, x.close) + PortWritten(x.port)
  }

  predicate IsPortNumber(digits: string) {
    digits != "" && IsDecimal(digits) && Numeral(digits, 10) <= 65535
  }

  predicate IsPort(p: PortText) {
    match p
    case NoPort(blank) => IsBlank(blank)
    case Mark(mark, digits, blank) => mark in {':', '#', '.', 'p', 'P'} && IsPortNumber(digits) && IsBlank(blank)
    case Word(before, between, digits, blank) =>
      before != "" && IsBlank(before) && IsBlank(between) && IsPortNumber(digits) && IsBlank(blank)
  }

  predicate IsScope(scope: Option<string>) {
    scope.Some? ==> scope.value != "" && IsDecimal(scope.value)
  }

  /** Without brackets, what the port mark must not run into: a scope takes only digits, a dot after
  a group would start a dotted decimal, and a colon after a group would start another one unless
  all eight groups have been written. */
  predicate Apart(items: seq<Item>, scope: Option<string>, port: PortText) {
    port.Mark? ==>
      && scope.None?
      && (port.mark == '.' ==> items != [] && !items[|items| - 1].Quad?)
      && (port.mark == ':' ==> items != [] && (items[|items| - 1].Quad? ==> Gaps(items) == 0))
  }

  predicate IsText(x: AddressText) {
    && IsBlank(x.lead) && IsBlank(x.open) && IsBlank(x.close) && IsAddress(x.items) && IsScope(x.scope)
    && IsPort(x.port) && (!x.bracket ==> Apart(x.items, x.scope, x.port))
  }

  function PortNumber(p: PortText): int {
    match p
    case NoPort(_) => -1
    case _ => Numeral(p.digits, 10)
  }

  function ScopeNumber(scope: Option<string>): nat {
    if scope.Some? then Numeral(scope.value, 10) % 4294967296 else 0
  }

  /** The address, the port (-1 if there is none) and the scope that a text means. */
  function Meaning(x: AddressText): Address
    requires IsText(x)
  {
    Address(AddressBytes(x.items), PortNumber(x.port), ScopeNumber(x.scope))
  }

  // ---------------------------------------------------------------- the port

  /** A number up to j, blanks up to n, and the end. */
  ghost predicate NumberAt(t: string, i: nat, j: nat, n: nat) {
    i <= j <= n <= |t| && IsPortNumber(t[i..j]) && IsBlank(t[j..n]) && At(t, n) == '\0'
  }

  lemma FirstDigit(t: string, i: nat)
    requires DecVal(At(t, i)) >= 0
    ensures i < |t| && IsDecimal(t[i..i + 1]) && Numeral(t[i..i + 1], 10) == DecVal(t[i]) < 10
  {
    ShortNumerals(t, i);
    DigitValues(t[i]);
  }

  lemma ParsePortIs(t: string, i: nat) returns (j: nat, n: nat)
    requires ParsePort(t, i).Some?
    ensures NumberAt(t, i, j, n) && ParsePort(t, i).value == Numeral(t[i..j], 10)
  {
    hide Numeral, PortDigits;
    FirstDigit(t, i);
    PortIs(t, i, i, DecVal(t[i]));
    j := PortDigits(t, i, DecVal(t[i])).value.1;
    SkipSpacesIs(t, j);
    n := SkipSpaces(t, j);
  }

  /** The character at j, when blanks reach from there to n. */
  lemma BlankStart(t: string, j: nat, n: nat)
    requires j <= n <= |t| && IsBlank(t[j..n])
    ensures j < n ==> IsSpace(At(t, j))
  {
    if j < n { assert t[j..n][0] == t[j]; }
  }

  lemma ParsePortTo(t: string, i: nat, j: nat, n: nat)
    requires NumberAt(t, i, j, n)
    ensures ParsePort(t, i) == Some(Numeral(t[i..j], 10))
  {
    hide Numeral, PortDigits;
    assert t[i..j][0] == t[i];
    FirstDigit(t, i);
    BlankStart(t, j, n);
    PortTo(t, i, i, DecVal(t[i]), j);
    SkipSpacesTo(t, j, n);
  }

  /** The end of the text from position k: no port, or a number. */
  function PortPart(t: string, k: nat, wantPort: bool): Option<int> {
    match FindPort(t, k)
    case None => None
    case Some(at) =>
      if at < 0 then Some(-1)
      else if !wantPort then None
      else
        match ParsePort(t, at)
        case None => None
        case Some(port) => Some(port as int)
  }

  /** The text ends with this port, from position k on. */
  ghost predicate PortAt(t: string, k: nat, n: nat, p: PortText) {
    k <= n <= |t| && IsPort(p) && t[k..n] == PortWritten(p) && At(t, n) == '\0'
  }

  lemma PortPartIs(t: string, k: nat, wantPort: bool) returns (p: PortText, n: nat)
    requires k <= |t| && PortPart(t, k, wantPort).Some?
    ensures PortAt(t, k, n, p) && (wantPort || p.NoPort?) && PortPart(t, k, wantPort).value == PortNumber(p)
  {
    hide Numeral, SkipSpaces, ParsePort, IsPortNumber;
    if At(t, k) in {':', '#', '.', 'p', 'P'} {
      var j;
      j, n := ParsePortIs(t, k + 1);
      p := Mark(t[k], t[k + 1..j], t[j..n]);
      assert t[k..n] == [t[k]] + t[k + 1..j] + t[j..n];
    } else {
      SkipSpacesIs(t, k);
      var at := SkipSpaces(t, k);
      if At(t, at) == '\0' {
        n := at;
        p := NoPort(t[k..n]);
      } else {
        p, n := WordIs(t, k, at);
      }
    }
  }

  lemma WordIs(t: string, k: nat, at: nat) returns (p: PortText, n: nat)
    requires k < at <= |t| && IsBlank(t[k..at]) && StartsWithPort(t, at) && ParsePort(t, SkipSpaces(t, at + 4)).Some?
    ensures p.Word? && PortAt(t, k, n, p) && PortNumber(p) == ParsePort(t, SkipSpaces(t, at + 4)).value
  {
    hide Numeral, SkipSpaces, ParsePort, IsPortNumber;
    SkipSpacesIs(t, at + 4);
    var i := SkipSpaces(t, at + 4);
    var j;
    j, n := ParsePortIs(t, i);
    p := Word(t[k..at], t[at + 4..i], t[i..j], t[j..n]);
    assert t[at..at + 4] == "port";
    WordPieces(t, k, at, i, j, n);
  }

  lemma WordPieces(t: string, k: nat, at: nat, i: nat, j: nat, n: nat)
    requires k <= at && at + 4 <= i <= j <= n <= |t|
    ensures t[k..n] == t[k..at] + t[at..at + 4] + t[at + 4..i] + t[i..j] + t[j..n]
  {
    assert t[k..i] == t[k..at] + t[at..at + 4] + t[at + 4..i];
    assert t[k..n] == t[k..i] + t[i..j] + t[j..n];
  }

  lemma NumberTo(t: string, i: nat, n: nat, digits: string, blank: string)
    requires i <= n <= |t| && t[i..n] == digits + blank && IsPortNumber(digits) && IsBlank(blank) && At(t, n) == '\0'
    ensures ParsePort(t, i) == Some(Numeral(digits, 10)) && !IsSpace(At(t, i)) && DecVal(At(t, i)) >= 0
  {
    assert digits + blank == "" + digits + blank;
    Pieces(t, i, n, "", digits, blank);
    var j := i + |digits|;
    assert t[i..j][0] == t[i];
    hide Numeral, ParsePort;
    ParsePortTo(t, i, j, n);
  }

  lemma MarkTo(t: string, k: nat, wantPort: bool, p: PortText, n: nat)
    requires p.Mark? && PortAt(t, k, n, p)
    ensures PortPart(t, k, wantPort) == if wantPort then Some(PortNumber(p)) else None
  {
    hide Numeral, SkipSpaces, ParsePort, IsPortNumber;
    assert [p.mark] + p.digits + p.blank == "" + [p.mark] + (p.digits + p.blank);
    Pieces(t, k, n, "", [p.mark], p.digits + p.blank);
    assert t[k..k + 1][0] == t[k];
    NumberTo(t, k + 1, n, p.digits, p.blank);
  }

  /** Where the blanks and the word stand. */
  lemma WordParts(t: string, k: nat, p: PortText, n: nat)
    requires p.Word? && k <= n <= |t| && t[k..n] == PortWritten(p)
    ensures var at := k + |p.before|;
            var i := at + 4 + |p.between|;
            && at + 4 <= i <= n && t[k..at] == p.before && t[at..at + 4] == "port"
            && t[at + 4..i] == p.between && t[i..n] == p.digits + p.blank
  {
    assert PortWritten(p) == p.before + "port" + (p.between + p.digits + p.blank);
    Pieces(t, k, n, p.before, "port", p.between + p.digits + p.blank);
    assert p.between + p.digits + p.blank == p.between + "" + (p.digits + p.blank);
    Pieces(t, k + |p.before| + 4, n, p.between, "", p.digits + p.blank);
  }

  lemma WordTo(t: string, k: nat, wantPort: bool, p: PortText, n: nat)
    requires p.Word? && PortAt(t, k, n, p)
    ensures PortPart(t, k, wantPort) == if wantPort then Some(PortNumber(p)) else None
  {
    hide Numeral, SkipSpaces, ParsePort, IsPortNumber, PortWritten;
    WordParts(t, k, p, n);
    var at := k + |p.before|;
    WordAt(t, at);
    BlankStart(t, k, at);
    SkipSpacesTo(t, k, at);
    NumberTo(t, at + 4 + |p.between|, n, p.digits, p.blank);
    SkipSpacesTo(t, at + 4, at + 4 + |p.between|);
  }

  lemma PortPartTo(t: string, k: nat, wantPort: bool, p: PortText, n: nat)
    requires PortAt(t, k, n, p)
    ensures PortPart(t, k, wantPort) == if wantPort || p.NoPort? then Some(PortNumber(p)) else None
  {
    match p {
      case NoPort(blank) =>
        BlankStart(t, k, n);
        SkipSpacesTo(t, k, n);
      case Mark(_, _, _) => MarkTo(t, k, wantPort, p, n);
      case Word(_, _, _, _) => WordTo(t, k, wantPort, p, n);
    }
  }

  lemma WordAt(t: string, at: nat)
    requires at + 4 <= |t| && t[at..at + 4] == "port"
    ensures StartsWithPort(t, at) && At(t, at) == 'p'
  {
    var s := t[at..at + 4];
    assert s[0] == t[at] && s[1] == t[at + 1] && s[2] == t[at + 2] && s[3] == t[at + 3];
  }

  // ---------------------------------------------------------------- scope and bracket

  /** A scope, or none, stands from i to j. */
  ghost predicate ScopeAt(t: string, i: nat, j: nat, scope: Option<string>) {
    && i <= j <= |t| && IsScope(scope) && t[i..j] == ScopeWritten(scope)
    && if scope.Some? then EndsScope(At(t, j)) else At(t, j) != '%'
  }

  lemma ParseScopeIs(t: string, i: nat) returns (scope: Option<string>)
    requires i <= |t| && ParseScope(t, i).Some?
    ensures var (v, j) := ParseScope(t, i).value; ScopeAt(t, i, j, scope) && v == ScopeNumber(scope)
  {
    hide Numeral, ScopeDigits;
    if At(t, i) != '%' {
      scope := None;
    } else {
      FirstDigit(t, i + 1);
      ScopeIs(t, i + 1, i + 1, DecVal(t[i + 1]));
      var j := ParseScope(t, i).value.1;
      scope := Some(t[i + 1..j]);
      assert t[i..j] == "%" + t[i + 1..j];
    }
  }

  lemma ParseScopeTo(t: string, i: nat, j: nat, scope: Option<string>)
    requires ScopeAt(t, i, j, scope)
    ensures ParseScope(t, i) == Some((ScopeNumber(scope), j))
  {
    hide Numeral, ScopeDigits;
    if scope.Some? {
      assert "%" + scope.value == "" + "%" + scope.value;
      Pieces(t, i, j, "", "%", scope.value);
      assert t[i..i + 1][0] == t[i] && t[i + 1..j][0] == t[i + 1];
      FirstDigit(t, i + 1);
      ScopeTo(t, i + 1, i + 1, DecVal(t[i + 1]), j);
    } else {
      assert |t[i..j]| == 0;
    }
  }

  ghost predicate CloseAt(t: string, i: nat, j: nat, bracket: bool, close: string) {
    i <= j <= |t| && IsBlank(close) && t[i..j] == CloseWritten(bracket, close)
  }

  lemma CloseBracketIs(t: string, i: nat, bracket: bool) returns (close: string)
    requires i <= |t| && CloseBracket(t, i, bracket).Some?
    ensures CloseAt(t, i, CloseBracket(t, i, bracket).value, bracket, close)
  {
    close := "";
    if bracket {
      SkipSpacesIs(t, i);
      var j := SkipSpaces(t, i);
      close := t[i..j];
      assert t[i..j + 1] == close + "]";
    }
  }

  lemma CloseBracketTo(t: string, i: nat, j: nat, bracket: bool, close: string)
    requires CloseAt(t, i, j, bracket, close)
    ensures CloseBracket(t, i, bracket) == Some(j)
  {
    if bracket {
      assert close + "]" == close + "]" + "";
      Pieces(t, i, j, close, "]", "");
      var k := i + |close|;
      assert t[k..k + 1][0] == t[k];
      SkipSpacesTo(t, i, k);
    } else {
      assert |t[i..j]| == 0;
    }
  }

  // ---------------------------------------------------------------- the start

  ghost predicate HeadAt(t: string, i: nat, lead: string, bracket: bool, open: string) {
    && i <= |t| && IsBlank(lead) && IsBlank(open) && t[..i] == HeadWritten(lead, bracket, open)
    && !IsSpace(At(t, i)) && (!bracket ==> At(t, i) != '[')
  }

  lemma ParseHeadIs(t: string) returns (lead: string, open: string)
    ensures var (i, bracket) := ParseHead(t); HeadAt(t, i, lead, bracket, open)
  {
    SkipSpacesIs(t, 0);
    var k := SkipSpaces(t, 0);
    lead, open := t[..k], "";
    if At(t, k) == '[' {
      SkipSpacesIs(t, k + 1);
      var i := SkipSpaces(t, k + 1);
      open := t[k + 1..i];
      assert t[..i] == lead + ("[" + open);
    }
    assert t[0..k] == t[..k];
  }

  lemma ParseHeadTo(t: string, i: nat, lead: string, bracket: bool, open: string)
    requires HeadAt(t, i, lead, bracket, open)
    ensures ParseHead(t) == (i, bracket)
  {
    var k := |lead|;
    assert t[0..i] == t[..i];
    if bracket {
      assert lead + ("[" + open) == lead + "[" + open;
      Pieces(t, 0, i, lead, "[", open);
      assert t[k..k + 1][0] == t[k];
      SkipSpacesTo(t, 0, k);
      SkipSpacesTo(t, k + 1, i);
    } else {
      assert lead + "" == lead;
      SkipSpacesTo(t, 0, i);
    }
  }

  // ---------------------------------------------------------------- the whole text

  /** Where the parts of a text stand: the head ends at i, the address at j, the scope at k,
  the bracket at m and the port at n. */
  ghost predicate PartsAt(t: string, x: AddressText, i: nat, j: nat, k: nat, m: nat, n: nat) {
    && HeadAt(t, i, x.lead, x.bracket, x.open) && AddressAt(t, i, j, x.items) && ScopeAt(t, j, k, x.scope)
    && CloseAt(t, k, m, x.bracket, x.close) && PortAt(t, m, n, x.port)
  }

  lemma ReadParts(t: string, wantPort: bool, x: AddressText, i: nat, j: nat, k: nat, m: nat, n: nat)
    requires PartsAt(t, x, i, j, k, m, n)
    ensures Parse(t, wantPort)
         == if wantPort || x.port.NoPort?
            then Some(Address(AddressBytes(x.items), PortNumber(x.port), ScopeNumber(x.scope))) else None
  {
    hide HeadAt, AddressAt, ScopeAt, CloseAt, PortAt;
    hide ParseHead, ParseIP, ParseScope, CloseBracket, FindPort, ParsePort, AddressBytes, PortNumber, ScopeNumber;
    ParseHeadTo(t, i, x.lead, x.bracket, x.open);
    AddressTo(t, i, j, x.items);
    ParseScopeTo(t, j, k, x.scope);
    CloseBracketTo(t, k, m, x.bracket, x.close);
    PortPartTo(t, m, wantPort, x.port, n);
  }

  lemma AddressTo(t: string, i: nat, j: nat, items: seq<Item>)
    requires AddressAt(t, i, j, items)
    ensures |Bytes(items)| <= 16 && ParseIP(t, i) == Some((AddressBytes(items), j))
  {
    hide ParseIP, AddressBytes, Bytes, Written;
    AddressExactly(t, i, AddressBytes(items), j);
  }

  lemma FindParts(t: string, wantPort: bool) returns (x: AddressText, i: nat, j: nat, k: nat, m: nat, n: nat)
    requires Parse(t, wantPort).Some?
    ensures PartsAt(t, x, i, j, k, m, n) && (wantPort || x.port.NoPort?)
  {
    hide IsAddress, Written, Ends, PortAt, ScopeWritten, IsScope, ParseScope, HeadWritten, CloseWritten;
    hide ParseHead, ParseIP, CloseBracket, FindPort, ParsePort, AddressBytes, PortNumber, ScopeNumber;
    var lead, open := ParseHeadIs(t);
    i := ParseHead(t).0;
    var bracket := ParseHead(t).1;
    var ip := ParseIP(t, i).value.0;
    j := ParseIP(t, i).value.1;
    AddressExactly(t, i, ip, j);
    var items :| AddressAt(t, i, j, items);
    var scope := ParseScopeIs(t, j);
    k := ParseScope(t, j).value.1;
    var close := CloseBracketIs(t, k, bracket);
    m := CloseBracket(t, k, bracket).value;
    var port;
    port, n := PortPartIs(t, m, wantPort);
    x := AddressText(lead, bracket, open, items, scope, close, port);
  }

  lemma PartsSpell(t: string, x: AddressText, i: nat, j: nat, k: nat, m: nat, n: nat)
    requires PartsAt(t, x, i, j, k, m, n)
    ensures i <= j <= k <= m <= n <= |t| && t[..n] == TextWritten(x) && At(t, n) == '\0'
  {
    hide IsAddress, Written, Ends, HeadWritten, ScopeWritten, CloseWritten, PortWritten, IsPort, IsScope;
    assert t[..j] == t[..i] + t[i..j];
    assert t[..k] == t[..j] + t[j..k];
    assert t[..m] == t[..k] + t[k..m];
    assert t[..n] == t[..m] + t[m..n];
  }

  lemma PartsAreText(t: string, x: AddressText, i: nat, j: nat, k: nat, m: nat, n: nat)
    requires PartsAt(t, x, i, j, k, m, n)
    ensures IsText(x)
  {
    hide Written, ScopeWritten, HeadWritten, Gaps, Bytes, AreItems;
    if !x.bracket && x.port.Mark? {
      assert |t[k..m]| == 0;
      assert t[m..n][0] == t[m] == x.port.mark;
      if x.scope.None? { NoScope(t, j, k); }
    }
  }

  lemma NoScope(t: string, j: nat, k: nat)
    requires ScopeAt(t, j, k, None)
    ensures j == k
  {
    assert |t[j..k]| == 0;
  }

  // ---------------------------------------------------------------- from the text to its parts

  /** What can stand before the bracket and the port: blank or end, or a port mark and a digit. */
  ghost predicate Before(t: string, k: nat, bracket: bool, port: PortText) {
    || EndsScope(At(t, k))
    || (!bracket && port.Mark? && At(t, k) == port.mark && DecVal(At(t, k + 1)) >= 0)
  }

  lemma BeforeClose(t: string, k: nat, m: nat, n: nat, bracket: bool, close: string, port: PortText)
    requires CloseAt(t, k, m, bracket, close) && PortAt(t, m, n, port)
    ensures Before(t, k, bracket, port)
  {
    if bracket {
      assert t[k..m][0] == t[k];
      if close != "" { assert t[k] == close[0]; }
    } else {
      assert |t[k..m]| == 0;
      BeforePort(t, k, n, port);
    }
  }

  lemma BeforePort(t: string, m: nat, n: nat, port: PortText)
    requires PortAt(t, m, n, port)
    ensures Before(t, m, false, port)
  {
    hide Numeral;
    if m < n {
      assert t[m..n][0] == t[m];
      match port
      case NoPort(blank) =>
      case Word(before, between, digits, blank) => assert t[m] == before[0];
      case Mark(mark, digits, blank) =>
        assert t[m..n][1] == digits[0];
        assert t[m..n][1] == t[m + 1];
    }
  }

  lemma ScopeStands(t: string, j: nat, k: nat, bracket: bool, items: seq<Item>, scope: Option<string>, port: PortText)
    requires j <= k <= |t| && IsScope(scope) && t[j..k] == ScopeWritten(scope) && Before(t, k, bracket, port)
    requires IsPort(port) && (!bracket ==> Apart(items, scope, port))
    ensures ScopeAt(t, j, k, scope)
    ensures if scope.Some? then At(t, j) == '%' else Before(t, j, bracket, port)
  {
    if scope.Some? {
      assert t[j..k][0] == t[j];
    } else {
      assert |t[j..k]| == 0;
    }
  }

  lemma AddressStands(t: string, i: nat, j: nat, bracket: bool, items: seq<Item>, scope: Option<string>, port: PortText)
    requires i <= j <= |t| && IsAddress(items) && t[i..j] == Written(items)
    requires IsPort(port) && (!bracket ==> Apart(items, scope, port))
    requires At(t, j) == '%' || Before(t, j, bracket, port)
    ensures AddressAt(t, i, j, items)
  {
    hide Written, Gaps, Bytes, Numeral, DotText, OctetValues, AreOctets;
    DigitValues(At(t, j));
    var last := items[|items| - 1];
    assert IsItem(last);
    if last.Dots? { assert last.parts != []; }
  }

  lemma HeadStands(t: string, i: nat, j: nat, lead: string, bracket: bool, open: string, items: seq<Item>)
    requires i <= j <= |t| && IsBlank(lead) && IsBlank(open) && t[..i] == HeadWritten(lead, bracket, open)
    requires items != [] && AreItems(items) && t[i..j] == Written(items)
    ensures HeadAt(t, i, lead, bracket, open)
  {
    if items[0].Gap? {
      assert items == [Gap] + items[1..];
      FirstGap(items[1..]);
    } else {
      StartsWithDigit(items);
    }
    hide Written, HeadWritten, AreItems;
    assert t[i..j][0] == t[i];
  }

  /** The five parts of a text, as slices. */
  lemma Slices(t: string, a: string, b: string, c: string, d: string, e: string)
    requires |a + b + c + d + e| <= |t| && t[..|a + b + c + d + e|] == a + b + c + d + e
    ensures var i := |a|;
            var j := i + |b|;
            var k := j + |c|;
            var m := k + |d|;
            var n := m + |e|;
            && n == |a + b + c + d + e|
            && t[..i] == a && t[i..j] == b && t[j..k] == c && t[k..m] == d && t[m..n] == e
  {
    var i := |a|;
    var j := i + |b|;
    var k := j + |c|;
    var m := k + |d|;
    var n := m + |e|;
    assert t[0..n] == t[..n];
    Pieces(t, 0, n, a + b + c, d, e);
    Pieces(t, 0, k, a, b, c);
    assert t[0..i] == t[..i];
  }

  /** The text starts with x and ends there. */
  ghost predicate Holds(t: string, x: AddressText) {
    var n := |TextWritten(x)|;
    n <= |t| && t[..n] == TextWritten(x) && At(t, n) == '\0'
  }

  lemma TextHasParts(t: string, x: AddressText) returns (i: nat, j: nat, k: nat, m: nat, n: nat)
    requires IsText(x) && Holds(t, x)
    ensures PartsAt(t, x, i, j, k, m, n)
  {
    hide Written, ScopeWritten, CloseWritten, PortWritten, HeadWritten, IsPort, IsScope, Apart, Gaps, AddressAt;
    hide Before, HeadAt, Bytes, AreItems;
    var a, b, c := HeadWritten(x.lead, x.bracket, x.open), Written(x.items), ScopeWritten(x.scope);
    var d, e := CloseWritten(x.bracket, x.close), PortWritten(x.port);
    Slices(t, a, b, c, d, e);
    i := |a|;
    j := i + |b|;
    k := j + |c|;
    m := k + |d|;
    n := m + |e|;
    BeforeClose(t, k, m, n, x.bracket, x.close, x.port);
    ScopeStands(t, j, k, x.bracket, x.items, x.scope, x.port);
    AddressStands(t, i, j, x.bracket, x.items, x.scope, x.port);
    HeadStands(t, i, j, x.lead, x.bracket, x.open, x.items);
  }

  /** The parser accepts exactly the texts of the grammar, each as what it means; a port only
  where one is wanted. */
  lemma ParseExactly(t: string, wantPort: bool, a: Address)
    ensures Parse(t, wantPort) == Some(a) <==>
            exists x :: Holds(t, x) && IsText(x) && (wantPort || x.port.NoPort?) && Meaning(x) == a
  {
    hide Holds, IsText, Parse, PartsAt, AddressBytes, PortNumber, ScopeNumber;
    if Parse(t, wantPort) == Some(a) {
      var x, i, j, k, m, n := FindParts(t, wantPort);
      TextRead(t, wantPort, x, i, j, k, m, n);
      assert Holds(t, x) && IsText(x) && (wantPort || x.port.NoPort?) && Meaning(x) == a;
    }
    if x :| Holds(t, x) && IsText(x) && (wantPort || x.port.NoPort?) && Meaning(x) == a {
      var i, j, k, m, n := TextHasParts(t, x);
      TextRead(t, wantPort, x, i, j, k, m, n);
    }
  }

  lemma TextRead(t: string, wantPort: bool, x: AddressText, i: nat, j: nat, k: nat, m: nat, n: nat)
    requires PartsAt(t, x, i, j, k, m, n)
    ensures Holds(t, x) && IsText(x)
    ensures Parse(t, wantPort) == if wantPort || x.port.NoPort? then Some(Meaning(x)) else None
  {
    hide Parse, IsText, TextWritten;
    hide HeadAt, AddressAt, ScopeAt, CloseAt, PortAt, AddressBytes;
    PartsSpell(t, x, i, j, k, m, n);
    PartsAreText(t, x, i, j, k, m, n);
    ReadParts(t, wantPort, x, i, j, k, m, n);
  }
}
