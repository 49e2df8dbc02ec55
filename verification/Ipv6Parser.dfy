/** The loops of the IPv6 parser.  Bytes go into a 16-byte buffer as they are
read; compressed zeros are put in at the end by shifting the buffer in place. */
module Ipv6Parser {
  import opened Wrappers
  import opened Ipv6Parse

  method SkipBlanks(t: string, i: nat) returns (j: nat)
    ensures j == SkipSpaces(t, i)
  {
    j := i;
    while IsSpace(At(t, j))
      invariant SkipSpaces(t, j) == SkipSpaces(t, i)
      decreases |t| - j
    {
      j := j + 1;
    }
  }

  /** The digits taken one by one. */
  lemma MoreDigitsOne(t: string, i: nat, acc: nat, left: nat)
    requires left == 3
    ensures MoreDigits(t, i, acc, left) ==
            if HexVal(At(t, i)) < 0 then (acc, i)
            else if HexVal(At(t, i + 1)) < 0 then (acc * 16 + HexVal(At(t, i)), i + 1)
            else
              var two := (acc * 16 + HexVal(At(t, i))) * 16 + HexVal(At(t, i + 1));
              if HexVal(At(t, i + 2)) < 0 then (two, i + 2) else (two * 16 + HexVal(At(t, i + 2)), i + 3)
  {
    if HexVal(At(t, i)) >= 0 {
      var one := acc * 16 + HexVal(At(t, i));
      assert MoreDigits(t, i, acc, left) == MoreDigits(t, i + 1, one, 2);
      if HexVal(At(t, i + 1)) >= 0 {
        var two := one * 16 + HexVal(At(t, i + 1));
        assert MoreDigits(t, i + 1, one, 2) == MoreDigits(t, i + 2, two, 1);
      }
    }
  }

  /** One to four hexadecimal digits, the first of which is at i. */
  method ReadQuad(t: string, i: nat) returns (quad: nat, j: nat)
    requires HexVal(At(t, i)) >= 0
    ensures (quad, j) == MoreDigits(t, i + 1, HexVal(At(t, i)), 3)
  {
    MoreDigitsOne(t, i + 1, HexVal(At(t, i)), 3);
    quad, j := HexVal(At(t, i)), i + 1;
    var digit := HexVal(At(t, j));
    if digit >= 0 {
      quad, j := quad * 16 + digit, j + 1;
      digit := HexVal(At(t, j));
      if digit >= 0 {
        quad, j := quad * 16 + digit, j + 1;
        digit := HexVal(At(t, j));
        if digit >= 0 {
          quad, j := quad * 16 + digit, j + 1;
        }
      }
    }
  }

  /** One octet of a dotted decimal. */
  method ReadOctet(t: string, i: nat) returns (r: Option<(nat, nat)>)
    ensures r == Octet(t, i)
  {
    var octet, j := DecVal(At(t, i)), i;
    if octet < 0 { return None; }
    j := j + 1;
    var digit := DecVal(At(t, j));
    if digit >= 0 {
      j := j + 1;
      octet := octet * 10 + digit;
      digit := DecVal(At(t, j));
      if digit >= 0 {
        j := j + 1;
        octet := octet * 10 + digit;
        if octet > 255 { return None; }
      }
    }
    return Some((octet, j));
  }

  /** Four octets, written to the buffer at d. */
  method ReadDotted(t: string, i: nat, out: array<nat>, d: nat) returns (ok: bool, j: nat)
    requires out.Length == 16 && d + 4 <= 16
    modifies out
    ensures var r := Dotted(t, i, old(out[..d]), 4);
            ok == r.Some? && (ok ==> r.value == (out[..d + 4], j))
  {
    var k := d;
    j := i;
    while true
      invariant d <= k < d + 4
      invariant Dotted(t, j, out[..k], d + 4 - k) == Dotted(t, i, old(out[..d]), 4)
      decreases d + 4 - k
    {
      var octet := ReadOctet(t, j);
      if octet.None? { return false, j; }
      j := octet.value.1;
      ghost var before := out[..k];
      out[k] := octet.value.0;
      k := k + 1;
      assert out[..k] == before + [octet.value.0];
      if k >= d + 4 { break; }
      if At(t, j) != '.' { return false, j; }
      j := j + 1;
    }
    return true, j;
  }

  /** One turn of the group loop; `more` says whether it goes on. */
  method ReadOne(t: string, start: nat, out: array<nat>, d0: nat, zeroFill0: int, must0: bool)
    returns (ok: bool, more: bool, i: nat, d: nat, zeroFill: int, must: bool)
    requires out.Length == 16 && d0 <= 16 && d0 % 2 == 0
    modifies out
    ensures d <= 16 && (more ==> ok && d % 2 == 0)
    ensures ParseOne(t, start, old(out[..d0]), zeroFill0, must0) ==
            if !ok then Failed
            else if more then Onward(i, out[..d], zeroFill, must)
            else Finished(Quads(out[..d], zeroFill, i))
  {
    ok, more, i, d, zeroFill, must := true, false, start, d0, zeroFill0, must0;
    if HexVal(At(t, i)) < 0 {
      ok := !must;
      return;
    }
    if d >= 16 { ok := false; return; }
    var quad;
    quad, i := ReadQuad(t, i);
    if At(t, i) == '.' {
      if d + 4 > 16 { ok := false; return; }
      ok, i := ReadDotted(t, start, out, d);
      if ok { d := d + 4; }
      return;
    }
    Put(out, d, quad);
    d := d + 2;
    if At(t, i) != ':' { return; }
    if At(t, i + 1) == ':' {
      i := i + 2;
      if zeroFill >= 0 { ok := false; return; }
      zeroFill := d;
      must := false;
    } else {
      if zeroFill < 0 && d >= 16 { return; }
      i := i + 1;
      must := true;
    }
    more := true;
  }

  /** The groups of the address part. */
  method ReadGroups(t: string, start: nat, leadingZeros: bool, out: array<nat>)
    returns (ok: bool, d: nat, zeroFill: int, i: nat)
    requires out.Length == 16
    modifies out
    ensures var want := ParseQuads(t, start, [], if leadingZeros then 0 else -1, !leadingZeros);
            d <= 16 && ok == want.Some? && (ok ==> want.value == Quads(out[..d], zeroFill, i))
  {
    ok, d, i := true, 0, start;
    zeroFill := if leadingZeros then 0 else -1;
    var must, more := !leadingZeros, true;
    ghost var want := ParseQuads(t, start, [], zeroFill, must);
    while more
      invariant d <= 16 && (more ==> ok && d % 2 == 0)
      invariant more ==> ParseQuads(t, i, out[..d], zeroFill, must) == want
      invariant !more ==> ok == want.Some? && (ok ==> want.value == Quads(out[..d], zeroFill, i))
      decreases more, |t| - i
    {
      TurnAdvances(t, i, out[..d], zeroFill, must);
      ok, more, i, d, zeroFill, must := ReadOne(t, i, out, d, zeroFill, must);
    }
  }

  /** Stores the two bytes of a group. */
  method Put(out: array<nat>, d: nat, quad: nat)
    requires d + 2 <= out.Length
    modifies out
    ensures out[..d + 2] == old(out[..d]) + [quad / 256, quad % 256]
  {
    out[d] := quad / 256;
    out[d + 1] := quad % 256;
  }

  /** Shifts the bytes after the gap to the end of the buffer and clears the gap. */
  method PutZeros(out: array<nat>, d: nat, zeroFill: int) returns (ok: bool)
    requires out.Length == 16 && zeroFill <= d <= 16
    modifies out
    ensures var r := FillZeros(Quads(old(out[..d]), zeroFill, 0));
            ok == r.Some? && (ok ==> out[..] == r.value)
  {
    if zeroFill >= 0 {
      var zeros := 16 - d;
      if zeros <= 0 { return false; }
      forall k | zeroFill <= k < d { out[k + zeros] := out[k]; }
      forall k | zeroFill <= k < zeroFill + zeros { out[k] := 0; }
      return true;
    }
    assert out[..16] == out[..];
    return d == 16;
  }

  method ReadScope(t: string, i: nat) returns (r: Option<(nat, nat)>)
    ensures r == ParseScope(t, i)
  {
    if At(t, i) != '%' { return Some((0, i)); }
    var j := i + 1;
    var scope := DecVal(At(t, j));
    if scope < 0 { return None; }
    while true
      invariant j < |t| && scope >= 0 && ScopeDigits(t, j, scope) == ParseScope(t, i)
      decreases |t| - j
    {
      j := j + 1;
      var c := At(t, j);
      if c == '\0' || c == ']' || IsSpace(c) { break; }
      if DecVal(c) < 0 { return None; }
      scope := (scope * 10 + DecVal(c)) % UINT32;
    }
    return Some((scope, j));
  }

  method ReadPort(t: string, i: nat) returns (r: Option<nat>)
    ensures r == ParsePort(t, i)
  {
    var port, j := DecVal(At(t, i)), i;
    if port < 0 { return None; }
    while true
      invariant j < |t| && port >= 0 && PortDigits(t, j, port) == PortDigits(t, i, DecVal(At(t, i)))
      decreases |t| - j
    {
      j := j + 1;
      var c := At(t, j);
      if c == '\0' || IsSpace(c) { break; }
      if DecVal(c) < 0 { return None; }
      port := port * 10 + DecVal(c);
      if port > 0xFFFF { return None; }
    }
    var k := SkipBlanks(t, j);
    return if At(t, k) == '\0' then Some(port) else None;
  }

  /** Everything after the address part. */
  method ReadTail(t: string, i: nat, bracket: bool, wantPort: bool) returns (r: Option<(int, nat)>)
    ensures r == ParseTail(t, i, bracket, wantPort)
  {
    var s := ReadScope(t, i);
    if s.None? { return None; }
    var (scope, j) := s.value;
    if bracket {
      j := SkipBlanks(t, j);
      if At(t, j) != ']' { return None; }
      j := j + 1;
    }
    if At(t, j) in {':', '#', '.', 'p', 'P'} {
      j := j + 1;
    } else {
      j := SkipBlanks(t, j);
      if At(t, j) == '\0' { return Some((-1, scope)); }
      if !StartsWithPort(t, j) { return None; }
      j := SkipBlanks(t, j + 4);
    }
    if !wantPort { return None; }
    var port := ReadPort(t, j);
    return if port.None? then None else Some((port.value, scope));
  }

  /** The address part, complete with its zeros. */
  method ReadIP(t: string, i: nat, out: array<nat>) returns (ok: bool, j: nat)
    requires out.Length == 16
    modifies out
    ensures var r := ParseIP(t, i); ok == r.Some? && (ok ==> r.value == (out[..], j))
  {
    j := i;
    var leadingZeros := At(t, j) == ':' && At(t, j + 1) == ':';
    if leadingZeros { j := j + 2; }
    BodyShape(t, i);
    var d, zeroFill;
    ok, d, zeroFill, j := ReadGroups(t, j, leadingZeros, out);
    if !ok { return; }
    ok := PutZeros(out, d, zeroFill);
  }

  /** `ParseIPv6Addr` */
  method ParseIPv6Addr(t: string, out: array<nat>, wantPort: bool) returns (ok: bool, port: int, scope: nat)
    requires out.Length == 16
    modifies out
    ensures var r := Parse(t, wantPort);
            ok == r.Some? && (ok ==> r.value == Address(out[..], port, scope))
  {
    port, scope := -1, 0;
    var i := SkipBlanks(t, 0);
    var bracket := At(t, i) == '[';
    if bracket { i := SkipBlanks(t, i + 1); }
    ok, i := ReadIP(t, i, out);
    if !ok { return; }
    var tail := ReadTail(t, i, bracket, wantPort);
    if tail.None? { return false, port, scope; }
    return true, tail.value.0, tail.value.1;
  }
}
