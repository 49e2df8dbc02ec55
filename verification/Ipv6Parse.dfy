/** The IPv6 parser, written as functions of the text and a position.  Ipv6Parser
holds the loops that compute them; Ipv6RoundTrip proves that they undo
printing. */
module Ipv6Parse {
  import opened Wrappers

  /** A C string read at position i: its terminator follows the last character. */
  function At(t: string, i: nat): char {
    if i < |t| then t[i] else '\0'
  }

  function HexVal(c: char): int {
    if '0' <= c <= '9' then c as int - '0' as int
    else if 'a' <= c <= 'f' then c as int - 'a' as int + 10
    else if 'A' <= c <= 'F' then c as int - 'A' as int + 10
    else -1
  }

  function DecVal(c: char): int {
    if '0' <= c <= '9' then c as int - '0' as int else -1
  }

  /** Newlines do not count. */
  predicate IsSpace(c: char) {
    c == ' ' || c == '\t'
  }

  function SkipSpaces(t: string, i: nat): nat
    decreases |t| - i
  {
    if IsSpace(At(t, i)) then SkipSpaces(t, i + 1) else i
  }

  /** Up to `left` further hexadecimal digits. */
  function MoreDigits(t: string, i: nat, acc: nat, left: nat): (nat, nat)
    decreases |t| - i
  {
    if left == 0 || HexVal(At(t, i)) < 0 then (acc, i)
    else MoreDigits(t, i + 1, acc * 16 + HexVal(At(t, i)), left - 1)
  }

  /** One to three decimal digits; the range is checked when there are three. */
  function Octet(t: string, i: nat): Option<(nat, nat)> {
    var a := DecVal(At(t, i));
    if a < 0 then None
    else
      var b := DecVal(At(t, i + 1));
      if b < 0 then Some((a, i + 1))
      else
        var c := DecVal(At(t, i + 2));
        if c < 0 then Some((a * 10 + b, i + 2))
        else if (a * 10 + b) * 10 + c > 255 then None
        else Some(((a * 10 + b) * 10 + c, i + 3))
  }

  /** The last `left` octets of a dotted decimal. */
  function Dotted(t: string, i: nat, d: seq<nat>, left: nat): Option<(seq<nat>, nat)>
    decreases |t| - i
  {
    if left == 0 then Some((d, i))
    else
      match Octet(t, i)
      case None => None
      case Some((v, j)) =>
        if left == 1 then Some((d + [v], j))
        else if At(t, j) != '.' then None
        else Dotted(t, j + 1, d + [v], left - 1)
  }

  /** The address part: bytes so far, where zeros are to be filled in (-1 for
  nowhere), and the position after it. */
  datatype Quads = Quads(d: seq<nat>, zeroFill: int, next: nat)

  /** What one turn of the group loop leads to. */
  datatype Turn = Failed | Finished(q: Quads) | Onward(i: nat, d: seq<nat>, zeroFill: int, must: bool)

  /** One turn: a group, or a dotted decimal, or the end of the address part. */
  function ParseOne(t: string, i: nat, d: seq<nat>, zeroFill: int, must: bool): Turn {
    if HexVal(At(t, i)) < 0 then
      if must then Failed else Finished(Quads(d, zeroFill, i))
    else if |d| >= 16 then Failed
    else
      var (quad, j) := MoreDigits(t, i + 1, HexVal(At(t, i)), 3);
      if At(t, j) == '.' then
        if |d| + 4 > 16 then Failed
        else
          match Dotted(t, i, d, 4)
          case None => Failed
          case Some((d', k)) => Finished(Quads(d', zeroFill, k))
      else
        var d' := d + [quad / 256, quad % 256];
        if At(t, j) != ':' then Finished(Quads(d', zeroFill, j))
        else if At(t, j + 1) == ':' then
          if zeroFill >= 0 then Failed else Onward(j + 2, d', |d'|, false)
        else if zeroFill < 0 && |d'| >= 16 then Finished(Quads(d', zeroFill, j))
        else Onward(j + 1, d', zeroFill, true)
  }

  lemma TurnAdvances(t: string, i: nat, d: seq<nat>, zeroFill: int, must: bool)
    ensures var s := ParseOne(t, i, d, zeroFill, must); s.Onward? ==> i < |t| && i < s.i
  {
    MoreDigitsAdvances(t, i + 1, if HexVal(At(t, i)) < 0 then 0 else HexVal(At(t, i)), 3);
  }

  /** Groups from position i on. */
  function ParseQuads(t: string, i: nat, d: seq<nat>, zeroFill: int, must: bool): Option<Quads>
    decreases |t| - i
  {
    TurnAdvances(t, i, d, zeroFill, must);
    match ParseOne(t, i, d, zeroFill, must)
    case Failed => None
    case Finished(q) => Some(q)
    case Onward(j, d', zeroFill', must') => ParseQuads(t, j, d', zeroFill', must')
  }

  lemma {:induction false} MoreDigitsAdvances(t: string, i: nat, acc: nat, left: nat)
    ensures i <= MoreDigits(t, i, acc, left).1
    decreases left
  {
    if left > 0 && HexVal(At(t, i)) >= 0 {
      MoreDigitsAdvances(t, i + 1, acc * 16 + HexVal(At(t, i)), left - 1);
    }
  }

  /** Compressed zeros put in, or None if the bytes do not make an address. */
  function FillZeros(q: Quads): Option<seq<nat>>
    requires q.zeroFill <= |q.d|
  {
    if q.zeroFill >= 0 then
      if |q.d| >= 16 then None
      else Some(q.d[..q.zeroFill] + seq(16 - |q.d|, _ => 0) + q.d[q.zeroFill..])
    else if |q.d| != 16 then None
    else Some(q.d)
  }

  const UINT32 := 0x1_0000_0000

  /** Scope digits after the first; i is the position of the last one taken. */
  function ScopeDigits(t: string, i: nat, acc: nat): Option<(nat, nat)>
    requires i < |t|
    decreases |t| - i
  {
    var c := At(t, i + 1);
    if c == '\0' || c == ']' || IsSpace(c) then Some((acc, i + 1))
    else if DecVal(c) < 0 then None
    else ScopeDigits(t, i + 1, (acc * 10 + DecVal(c)) % UINT32)
  }

  /** The optional `%scope`. */
  function ParseScope(t: string, i: nat): Option<(nat, nat)> {
    if At(t, i) != '%' then Some((0, i))
    else if DecVal(At(t, i + 1)) < 0 then None
    else ScopeDigits(t, i + 1, DecVal(At(t, i + 1)))
  }

  /** Port digits after the first; i is the position of the last one taken. */
  function PortDigits(t: string, i: nat, acc: nat): Option<(nat, nat)>
    requires i < |t|
    decreases |t| - i
  {
    var c := At(t, i + 1);
    if c == '\0' || IsSpace(c) then Some((acc, i + 1))
    else if DecVal(c) < 0 || acc * 10 + DecVal(c) > 0xFFFF then None
    else PortDigits(t, i + 1, acc * 10 + DecVal(c))
  }

  predicate StartsWithPort(t: string, i: nat) {
    At(t, i) == 'p' && At(t, i + 1) == 'o' && At(t, i + 2) == 'r' && At(t, i + 3) == 't'
  }

  /** Where the port number starts: None is a failure, Some(-1) means no port. */
  function FindPort(t: string, i: nat): Option<int> {
    if At(t, i) in {':', '#', '.', 'p', 'P'} then Some(i + 1)
    else
      var j := SkipSpaces(t, i);
      if At(t, j) == '\0' then Some(-1)
      else if StartsWithPort(t, j) then Some(SkipSpaces(t, j + 4))
      else None
  }

  /** The port number at position i, and nothing but blanks after it. */
  function ParsePort(t: string, i: nat): Option<nat> {
    if DecVal(At(t, i)) < 0 then None
    else
      match PortDigits(t, i, DecVal(At(t, i)))
      case None => None
      case Some((port, j)) => if At(t, SkipSpaces(t, j)) == '\0' then Some(port) else None
  }

  datatype Address = Address(ip: seq<nat>, port: int, scope: nat)

  /** Position after the closing bracket, if one is called for. */
  function CloseBracket(t: string, i: nat, bracket: bool): Option<nat> {
    if !bracket then Some(i)
    else
      var j := SkipSpaces(t, i);
      if At(t, j) != ']' then None else Some(j + 1)
  }

  /** What follows the address part. */
  function ParseTail(t: string, i: nat, bracket: bool, wantPort: bool): Option<(int, nat)> {
    match ParseScope(t, i)
    case None => None
    case Some((scope, j)) =>
      match CloseBracket(t, j, bracket)
      case None => None
      case Some(k) =>
        match FindPort(t, k)
        case None => None
        case Some(at) =>
          if at < 0 then Some((-1, scope))
          else if !wantPort then None
          else
            match ParsePort(t, at)
            case None => None
            case Some(port) => Some((port, scope))
  }

  /** Position of the first group, and whether a bracket was opened. */
  function ParseHead(t: string): (nat, bool) {
    var i := SkipSpaces(t, 0);
    if At(t, i) == '[' then (SkipSpaces(t, i + 1), true) else (i, false)
  }

  /** The address part, with the special case for a leading `::`. */
  function ParseBody(t: string, i: nat): Option<Quads> {
    if At(t, i) == ':' && At(t, i + 1) == ':' then ParseQuads(t, i + 2, [], 0, false)
    else ParseQuads(t, i, [], -1, true)
  }

  lemma TurnShape(t: string, i: nat, d: seq<nat>, zeroFill: int, must: bool)
    requires zeroFill <= |d| <= 16 && |d| % 2 == 0
    ensures match ParseOne(t, i, d, zeroFill, must)
            case Failed => true
            case Finished(q) => q.zeroFill <= |q.d| <= 16
            case Onward(_, d', zeroFill', _) => zeroFill' <= |d'| <= 16 && |d'| % 2 == 0
  {
    if |d| + 4 <= 16 { DottedShape(t, i, d, 4); }
  }

  lemma {:induction false} QuadsShape(t: string, i: nat, d: seq<nat>, zeroFill: int, must: bool)
    requires zeroFill <= |d| <= 16 && |d| % 2 == 0
    ensures var q := ParseQuads(t, i, d, zeroFill, must);
            q.Some? ==> q.value.zeroFill <= |q.value.d| <= 16
    decreases |t| - i
  {
    TurnShape(t, i, d, zeroFill, must);
    TurnAdvances(t, i, d, zeroFill, must);
    match ParseOne(t, i, d, zeroFill, must)
    case Onward(j, d', zeroFill', must') => QuadsShape(t, j, d', zeroFill', must');
    case _ =>
  }

  lemma {:induction false} DottedShape(t: string, i: nat, d: seq<nat>, left: nat)
    ensures var r := Dotted(t, i, d, left); r.Some? ==> |r.value.0| == |d| + left && d <= r.value.0
    decreases left
  {
    if left > 1 && Octet(t, i).Some? {
      var (v, j) := Octet(t, i).value;
      if At(t, j) == '.' { DottedShape(t, j + 1, d + [v], left - 1); }
    }
  }

  lemma BodyShape(t: string, i: nat)
    ensures var q := ParseBody(t, i); q.Some? ==> q.value.zeroFill <= |q.value.d| <= 16
  {
    QuadsShape(t, i, [], -1, true);
    QuadsShape(t, i + 2, [], 0, false);
  }

  /** The 16 bytes of the address part and the position after it. */
  function ParseIP(t: string, i: nat): Option<(seq<nat>, nat)> {
    match ParseBody(t, i)
    case None => None
    case Some(q) =>
      BodyShape(t, i);
      match FillZeros(q)
      case None => None
      case Some(ip) => Some((ip, q.next))
  }

  /** `ParseIPv6Addr`: the address, port (-1 if none) and scope, or None. */
  function Parse(t: string, wantPort: bool): Option<Address> {
    var (i, bracket) := ParseHead(t);
    match ParseIP(t, i)
    case None => None
    case Some((ip, j)) =>
      match ParseTail(t, j, bracket, wantPort)
      case None => None
      case Some((port, scope)) => Some(Address(ip, port, scope))
  }
}
