/** Canonical text of an IPv6 address, as RFC 5952 section 4 asks for it. */
module Ipv6Print {
  import opened Wrappers

  const GROUPS: nat := 8

  type Group = g: nat | g < 65536

  /** The eight 16-bit groups of an address of 16 bytes. */
  function GroupAt(ip: seq<Byte>, i: nat): Group
    requires |ip| == 16 && i < GROUPS
  {
    ip[2 * i] as int * 256 + ip[2 * i + 1]
  }

  function GroupsOf(ip: seq<Byte>): (g: seq<Group>)
    requires |ip| == 16
    ensures |g| == GROUPS
  {
    seq(GROUPS, i requires 0 <= i < GROUPS => GroupAt(ip, i))
  }

  const HEX_DIGITS := "0123456789abcdef"

  function HexDigit(d: nat): char
    requires d < 16
  {
    HEX_DIGITS[d]
  }

  /** Lowercase hexadecimal digits without leading zeros. */
  function Hex(q: nat): string {
    if q < 16 then [HexDigit(q)] else Hex(q / 16) + [HexDigit(q % 16)]
  }

  /** The groups in hexadecimal, separated by colons. */
  function Join(gs: seq<Group>): string {
    if gs == [] then ""
    else if |gs| == 1 then Hex(gs[0])
    else Hex(gs[0]) + ":" + Join(gs[1..])
  }

  /** The text with groups start .. start+len-1 written as `::`; start -1 means
  none are. */
  function Text(gs: seq<Group>, start: int, len: nat): string
    requires start < 0 || start + len <= |gs|
  {
    if start < 0 then Join(gs) else Join(gs[..start]) + "::" + Join(gs[start + len..])
  }

  ghost predicate ZeroRun(gs: seq<Group>, start: int, len: int) {
    0 <= start && 0 <= len && start + len <= |gs| && forall i :: start <= i < start + len ==> gs[i] == 0
  }

  /** What RFC 5952 sections 4.2.1 to 4.2.3 ask to be compressed: the leftmost
  longest run of at least two zero groups, and nothing if there is none. */
  ghost predicate Compresses(gs: seq<Group>, start: int, len: nat) {
    if start < 0 then start == -1 && forall s, n :: ZeroRun(gs, s, n) ==> n <= 1
    else
      && len >= 2 && ZeroRun(gs, start, len)
      && forall s, n :: ZeroRun(gs, s, n) ==> n < len || (n == len && start <= s)
  }

  /** There is only one answer. */
  lemma CompressesUniquely(gs: seq<Group>, s1: int, n1: nat, s2: int, n2: nat)
    requires Compresses(gs, s1, n1) && Compresses(gs, s2, n2)
    ensures s1 == s2 && (s1 >= 0 ==> n1 == n2)
  {
    if s1 >= 0 { assert ZeroRun(gs, s1, n1); }
    if s2 >= 0 { assert ZeroRun(gs, s2, n2); }
  }

  /** What the scan knows after k groups: the zero run that ends there, and the
  best run so far. */
  ghost predicate ScannedTo(gs: seq<Group>, k: int, run: nat, start: int, longest: nat) {
    && 0 <= k <= |gs| && ZeroRun(gs, k - run, run)
    && (k - run > 0 ==> gs[k - run - 1] != 0)
    && (start < 0 ==> start == -1 && longest == 1)
    && (start >= 0 ==> longest >= 2 && start + longest <= k && ZeroRun(gs, start, longest))
    && forall s, n :: ZeroRun(gs, s, n) && s + n <= k ==>
         n < longest || (n == longest && (start < 0 || start <= s))
  }

  /** The scan of a nonzero group. */
  lemma ScanNonzero(gs: seq<Group>, k: int, run: nat, start: int, longest: nat)
    requires ScannedTo(gs, k, run, start, longest) && k < |gs| && gs[k] != 0
    ensures ScannedTo(gs, k + 1, 0, start, longest)
  {
    assert gs[k] != 0;
    assert forall s, n :: ZeroRun(gs, s, n) && s + n <= k + 1 ==> n == 0 || s + n <= k;
  }

  /** The scan of a zero group. */
  lemma ScanZero(gs: seq<Group>, k: int, run: nat, start: int, longest: nat)
    requires ScannedTo(gs, k, run, start, longest) && k < |gs| && gs[k] == 0
    ensures if run + 1 > longest then ScannedTo(gs, k + 1, run + 1, k - run, run + 1)
            else ScannedTo(gs, k + 1, run + 1, start, longest)
  {
    assert k - run > 0 ==> gs[k - run - 1] != 0;
    assert forall s, n :: ZeroRun(gs, s, n) && s + n == k + 1 ==> n <= run + 1;
  }

  /** Finds the run to compress. */
  method LongestZeroRun(ip: seq<Byte>) returns (start: int, longest: nat)
    requires |ip| == 16
    ensures Compresses(GroupsOf(ip), start, longest)
    ensures start < 0 || start + longest <= GROUPS
  {
    ghost var gs := GroupsOf(ip);
    start, longest := -1, 1;
    var run := 0;
    for k := 0 to GROUPS
      invariant ScannedTo(gs, k, run, start, longest)
    {
      assert gs[k] == GroupAt(ip, k);
      if ip[k * 2] != 0 || ip[k * 2 + 1] != 0 {
        ScanNonzero(gs, k, run, start, longest);
        run := 0;
      } else {
        ScanZero(gs, k, run, start, longest);
        run := run + 1;
        if run > longest {
          longest := run;
          start := k - run + 1;
        }
      }
    }
  }

  /** One group, digit by digit. */
  method PrintGroup(quad: Group) returns (s: string)
    ensures s == Hex(quad)
  {
    HexByLength(quad);
    hide Hex, HexDigit;
    s := "";
    if quad >= 0x10 {
      if quad >= 0x100 {
        if quad >= 0x1000 { s := s + [HexDigit(quad / 0x1000)]; }
        s := s + [HexDigit(quad / 0x100 % 16)];
      }
      s := s + [HexDigit(quad / 0x10 % 16)];
    }
    s := s + [HexDigit(quad % 16)];
  }

  /** The digits of a group, written out. */
  lemma HexByLength(q: Group)
    ensures q < 0x10 ==> Hex(q) == [HexDigit(q)]
    ensures 0x10 <= q < 0x100 ==> Hex(q) == [HexDigit(q / 0x10), HexDigit(q % 16)]
    ensures 0x100 <= q < 0x1000 ==> Hex(q) == [HexDigit(q / 0x100), HexDigit(q / 0x10 % 16), HexDigit(q % 16)]
    ensures 0x1000 <= q ==>
              Hex(q) == [HexDigit(q / 0x1000), HexDigit(q / 0x100 % 16), HexDigit(q / 0x10 % 16), HexDigit(q % 16)]
  {
    assert q / 0x10 / 0x10 == q / 0x100;
    assert q / 0x100 / 0x10 == q / 0x1000;
    if q >= 0x10 { assert Hex(q) == Hex(q / 0x10) + [HexDigit(q % 16)]; }
    if q >= 0x100 { assert Hex(q / 0x10) == Hex(q / 0x100) + [HexDigit(q / 0x10 % 16)]; }
    if q >= 0x1000 { assert Hex(q / 0x100) == Hex(q / 0x1000) + [HexDigit(q / 0x100 % 16)]; }
  }

  /** Appending a group at the end. */
  lemma {:induction false} JoinAppend(gs: seq<Group>, g: Group)
    ensures Join(gs + [g]) == Join(gs) + (if gs == [] then "" else ":") + Hex(g)
  {
    if |gs| == 1 {
      assert (gs + [g])[1..] == [g];
    } else if |gs| > 1 {
      assert (gs + [g])[1..] == gs[1..] + [g];
      JoinAppend(gs[1..], g);
    }
  }

  /** What has been printed when the groups before k are done. */
  function Printed(gs: seq<Group>, start: int, len: nat, k: nat): string
    requires k <= |gs| && (start < 0 || start + len <= |gs|)
  {
    if start < 0 || k <= start then Join(gs[..k])
    else if k < start + len then ""
    else Join(gs[..start]) + "::" + Join(gs[start + len..k])
  }

  lemma NothingPrinted()
    ensures Join([]) == ""
  {
  }

  lemma PrintedStep(gs: seq<Group>, start: int, len: nat, k: nat)
    requires k < |gs| && (start < 0 || start + len <= |gs|) && k != start
    requires start < 0 || k < start || start + len <= k
    ensures Printed(gs, start, len, k + 1) ==
            Printed(gs, start, len, k) + (if k == 0 || (start >= 0 && k == start + len) then "" else ":") + Hex(gs[k])
  {
    hide Join, Hex;
    if start < 0 || k < start {
      assert gs[..k + 1] == gs[..k] + [gs[k]];
      JoinAppend(gs[..k], gs[k]);
    } else {
      assert gs[start + len..k + 1] == gs[start + len..k] + [gs[k]];
      JoinAppend(gs[start + len..k], gs[k]);
    }
  }

  /** `IPv6IPToString` */
  method IPv6IPToString(ip: seq<Byte>) returns (text: string, ghost start: int, ghost len: nat)
    requires |ip| == 16
    ensures Compresses(GroupsOf(ip), start, len) && (start < 0 || start + len <= GROUPS)
    ensures text == Text(GroupsOf(ip), start, len)
  {
    hide Hex, Join, Compresses;
    ghost var gs := GroupsOf(ip);
    NothingPrinted();
    var runStart, run := LongestZeroRun(ip);
    start, len := runStart, run;
    text := "";
    var k := 0;
    var needColon := false;
    while k < GROUPS
      invariant 0 <= k <= GROUPS && (runStart < 0 || k <= runStart || runStart + run <= k)
      invariant needColon <==> !(k == 0 || (runStart >= 0 && k == runStart + run))
      invariant text == Printed(gs, runStart, run, k)
    {
      if k == runStart {
        text := text + "::";
        needColon := false;
        k := k + run;
        assert gs[k..k] == [];
      } else {
        PrintedStep(gs, runStart, run, k);
        if needColon { text := text + ":"; }
        needColon := true;
        var quad: Group := ip[k * 2] as int * 256 + ip[k * 2 + 1];
        var digits := PrintGroup(quad);
        text := text + digits;
        k := k + 1;
      }
    }
    assert gs[..GROUPS] == gs;
  }

  // ---------------------------------------------------------------- RFC 5952 sections 4.1 and 4.3

  predicate IsLowerHex(c: char) {
    '0' <= c <= '9' || 'a' <= c <= 'f'
  }

  /** No leading zeros, at most four digits, all lowercase. */
  lemma {:induction false} HexIsCanonical(q: nat)
    ensures Hex(q) != "" && (Hex(q)[0] == '0' ==> q == 0)
    ensures q < 65536 ==> |Hex(q)| <= 4
    ensures forall i :: 0 <= i < |Hex(q)| ==> IsLowerHex(Hex(q)[i])
  {
    if q >= 16 {
      HexIsCanonical(q / 16);
      if q < 65536 { HexByLength(q); }
    }
  }

  predicate IsAddressChar(c: char) {
    IsLowerHex(c) || c == ':'
  }

  lemma {:induction false} JoinIsCanonical(gs: seq<Group>)
    ensures |Join(gs)| <= (if gs == [] then 0 else 5 * |gs| - 1)
    ensures forall i :: 0 <= i < |Join(gs)| ==> IsAddressChar(Join(gs)[i])
  {
    if gs != [] {
      HexIsCanonical(gs[0]);
      if |gs| > 1 { JoinIsCanonical(gs[1..]); }
    }
  }

  /** The printed text is at most 39 characters, of which each is a lowercase
  digit or a colon. */
  lemma TextIsCanonical(gs: seq<Group>, start: int, len: nat)
    requires |gs| == GROUPS && Compresses(gs, start, len) && (start < 0 || start + len <= GROUPS)
    ensures |Text(gs, start, len)| <= 39
    ensures forall i :: 0 <= i < |Text(gs, start, len)| ==> IsAddressChar(Text(gs, start, len)[i])
  {
    if start < 0 {
      JoinIsCanonical(gs);
    } else {
      JoinIsCanonical(gs[..start]);
      JoinIsCanonical(gs[start + len..]);
    }
  }

  // ---------------------------------------------------------------- port and scope

  function DecDigit(d: nat): char
    requires d < 10
  {
    "0123456789"[d]
  }

  /** What `%u` prints. */
  function Dec(n: nat): string {
    if n < 10 then [DecDigit(n)] else Dec(n / 10) + [DecDigit(n % 10)]
  }

  const INT32_MAX_PLUS_1 := 0x8000_0000

  /** What `%d` prints for a 32-bit unsigned value. */
  function SignedDec(x: nat): string
    requires x < 2 * INT32_MAX_PLUS_1
  {
    if x < INT32_MAX_PLUS_1 then Dec(x) else "-" + Dec(2 * INT32_MAX_PLUS_1 - x)
  }

  /** What `snprintf` leaves in a buffer of the given size, without the terminator. */
  function Fits(size: nat, s: string): string
    requires size > 0
  {
    if |s| < size then s else s[..size - 1]
  }

  function ScopeText(scope: nat): string
    requires scope < 2 * INT32_MAX_PLUS_1
  {
    if scope == 0 then "" else Fits(12, "%" + SignedDec(scope))
  }

  function PortText(port: nat): string {
    Fits(8, "]:" + Dec(port))
  }

  function AddrText(ipText: string, port: nat, scope: nat): string
    requires scope < 2 * INT32_MAX_PLUS_1
  {
    "[" + ipText + ScopeText(scope) + PortText(port)
  }

  /** `IPv6AddrToString` */
  method IPv6AddrToString(ip: seq<Byte>, port: nat, scope: nat)
    returns (text: string, ghost start: int, ghost len: nat)
    requires |ip| == 16 && port < 65536 && scope < 2 * INT32_MAX_PLUS_1
    ensures Compresses(GroupsOf(ip), start, len) && (start < 0 || start + len <= GROUPS)
    ensures text == AddrText(Text(GroupsOf(ip), start, len), port, scope)
  {
    text := "[";
    var ipText;
    ipText, start, len := IPv6IPToString(ip);
    text := text + ipText;
    if scope != 0 {
      text := text + Fits(12, "%" + SignedDec(scope));
    }
    text := text + Fits(8, "]:" + Dec(port));
  }
}
