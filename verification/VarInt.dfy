/** Variable-length unsigned integers: seven bits a byte, low bits first, the high bit of
a byte saying that more follow. */
module VarInt {
  import opened Wrappers

  function Bytes(x: nat): (s: seq<Byte>)
    ensures |s| > 0
  {
    if x < 0x80 then [x] else [x % 0x80 + 0x80] + Bytes(x / 0x80)
  }

  function Power128(n: nat): (p: nat)
    ensures p > 0
  {
    if n == 0 then 1 else 0x80 * Power128(n - 1)
  }

  /** The number that the low seven bits of each byte spell. */
  function Value(s: seq<Byte>): nat {
    if s == [] then 0 else s[0] % 0x80 + 0x80 * Value(s[1..])
  }

  /** The number of bytes up to the first that has its high bit clear. */
  function Extent(s: seq<Byte>): Option<nat> {
    if s == [] then None
    else if s[0] < 0x80 then Some(1)
    else
      var n :- Extent(s[1..]);
      Some(n + 1)
  }

  /** A width of 32 or 64 bits, by its number of values and the most bytes it takes. */
  datatype Width = W32 | W64 {
    function Values(): (n: nat)
      ensures n > 0
    {
      if W32? then 0x1_0000_0000 else 0x1_0000_0000_0000_0000
    }

    function MaxBytes(): nat {
      if W32? then 5 else 10
    }
  }

  /** The bytes a number may take up: no more than the width needs. */
  function Limit(s: seq<Byte>, w: Width): seq<Byte> {
    if |s| > w.MaxBytes() then s[..w.MaxBytes()] else s
  }

  /** `VarIntSerializedSize` of a 32 bit number. */
  function Size32(x: nat): nat {
    if x < 0x80 then 1 else if x < 0x4000 then 2 else if x < 0x20_0000 then 3 else if x < 0x1000_0000 then 4 else 5
  }

  /** `VarIntSerializedSize` of a 64 bit number. */
  function Size64(x: nat): nat {
    if x < 0x8_0000_0000 then
      if x < 0x80 then 1 else if x < 0x4000 then 2 else if x < 0x20_0000 then 3 else if x < 0x1000_0000 then 4 else 5
    else if x < 0x400_0000_0000 then 6
    else if x < 0x2_0000_0000_0000 then 7
    else if x < 0x100_0000_0000_0000 then 8
    else if x < 0x8000_0000_0000_0000 then 9
    else 10
  }

  // ---------------------------------------------------------------- layout

  /** Byte k holds the seven bits from 7 * k on, and whether there are more. */
  lemma {:induction false} BytesAt(x: nat, k: nat)
    requires k < |Bytes(x)|
    ensures Bytes(x)[k] == x / Power128(k) % 128 + if k + 1 < |Bytes(x)| then 128 else 0
    decreases k
  {
    if k > 0 {
      BytesAt(x / 0x80, k - 1);
      DivideTwice(x, Power128(k - 1));
    }
  }

  lemma DivideTwice(x: nat, p: nat)
    requires p > 0
    ensures x / 0x80 / p == x / (0x80 * p)
  {
    var q := x / 0x80 / p;
    var r, t := x / 0x80 % p, x % 0x80;
    assert x == 0x80 * (q * p + r) + t;
    assert 0x80 * (q * p + r) + t == q * (0x80 * p) + (0x80 * r + t) by {
      assert 0x80 * (q * p) == q * (0x80 * p);
    }
    QuotientIs(x, 0x80 * p, q, 0x80 * r + t);
  }

  lemma QuotientIs(x: nat, d: nat, q: nat, r: nat)
    requires d > 0 && x == q * d + r && r < d
    ensures x / d == q
  {
    var y := x / d;
    assert y * d <= x < y * d + d == (y + 1) * d;
    assert q * d + d == (q + 1) * d;
    FewerTimes(y, q + 1, d);
    FewerTimes(q, y + 1, d);
  }

  lemma FewerTimes(a: nat, b: nat, d: nat)
    requires a * d < b * d
    ensures a < b
  {
  }

  /** A number ends with the first byte whose high bit is clear. */
  lemma {:induction false} ExtentExactly(s: seq<Byte>, n: nat)
    ensures Extent(s) == Some(n) <==>
            0 < n <= |s| && s[n - 1] < 128 && forall i :: 0 <= i < n - 1 ==> s[i] >= 128
  {
    if s != [] && s[0] >= 0x80 && n > 0 {
      ExtentExactly(s[1..], n - 1);
      assert forall i :: 1 <= i < |s| ==> s[i] == s[1..][i - 1];
    }
  }

  /** The limit of a width is the number of bytes that its numbers can take. */
  lemma MaxBytesIsLeast(w: Width)
    ensures Power128(w.MaxBytes() - 1) < w.Values() <= Power128(w.MaxBytes())
  {
    Powers();
  }

  // ---------------------------------------------------------------- sizes

  /** n bytes hold exactly the numbers below 128 to the n. */
  lemma {:induction false} BytesFit(x: nat, n: nat)
    ensures |Bytes(x)| <= n <==> n > 0 && x < Power128(n)
    decreases n
  {
    if n > 0 && x >= 0x80 {
      BytesFit(x / 0x80, n - 1);
    } else if n > 0 {
      assert Power128(n) >= 0x80;
    }
  }

  lemma Powers()
    ensures Power128(1) == 0x80 && Power128(2) == 0x4000 && Power128(3) == 0x20_0000 && Power128(4) == 0x1000_0000
    ensures Power128(5) == 0x8_0000_0000 && Power128(6) == 0x400_0000_0000 && Power128(7) == 0x2_0000_0000_0000
    ensures Power128(8) == 0x100_0000_0000_0000 && Power128(9) == 0x8000_0000_0000_0000
    ensures Power128(10) == 0x40_0000_0000_0000_0000
  {
  }

  lemma SizeIs(x: nat, n: nat)
    requires n > 0 && x < Power128(n) && (n == 1 || x >= Power128(n - 1))
    ensures |Bytes(x)| == n
  {
    BytesFit(x, n);
    BytesFit(x, n - 1);
  }

  /** The size functions give the length of the encoding. */
  lemma SizesAreExact(x: nat)
    ensures x < 0x1_0000_0000 ==> |Bytes(x)| == Size32(x)
    ensures x < 0x1_0000_0000_0000_0000 ==> |Bytes(x)| == Size64(x)
  {
    Powers();
    if x < 0x1_0000_0000_0000_0000 { SizeIs(x, Size64(x)); }
  }

  // ---------------------------------------------------------------- the round trip

  lemma {:induction false} BytesBack(x: nat, rest: seq<Byte>)
    ensures Extent(Bytes(x) + rest) == Some(|Bytes(x)|)
    ensures Value(Bytes(x)) == x
    decreases x
  {
    var s := Bytes(x);
    if x >= 0x80 {
      BytesBack(x / 0x80, rest);
      assert (s + rest)[1..] == Bytes(x / 0x80) + rest;
      assert s[1..] == Bytes(x / 0x80);
      assert (x % 0x80 + 0x80) % 0x80 == x % 0x80;
    }
  }

  /** Decoding what was encoded gives the number back, in exactly the bytes written. */
  lemma RoundTrip(x: nat, w: Width, rest: seq<Byte>)
    requires x < w.Values()
    ensures |Bytes(x)| <= w.MaxBytes()
    ensures Extent(Limit(Bytes(x) + rest, w)) == Some(|Bytes(x)|)
    ensures Value((Bytes(x) + rest)[..|Bytes(x)|]) % w.Values() == x
  {
    SizesAreExact(x);
    var s := Bytes(x) + rest;
    assert |Bytes(x)| <= w.MaxBytes() by { SizeFits(x, w); }
    var rest' := Limit(s, w)[|Bytes(x)|..];
    assert Limit(s, w) == Bytes(x) + rest';
    BytesBack(x, rest');
    assert s[..|Bytes(x)|] == Bytes(x);
  }

  lemma SizeFits(x: nat, w: Width)
    requires x < w.Values()
    ensures |Bytes(x)| <= w.MaxBytes()
  {
    Powers();
    BytesFit(x, w.MaxBytes());
  }

  /** An encoding that ends in a byte other than zero, or is a single byte, is the one
  that the writer makes: numbers have no other short form. */
  lemma {:induction false} ShortFormIsUnique(s: seq<Byte>)
    requires Extent(s) == Some(|s|) && (|s| == 1 || s[|s| - 1] != 0)
    ensures Bytes(Value(s)) == s
  {
    if |s| > 1 {
      var t := s[1..];
      ShortFormIsUnique(t);
      NotZero(t);
      DigitAndRest(s[0] % 0x80, Value(t));
      HighBit(s[0]);
      assert s == [s[0]] + t;
    }
  }

  lemma DigitAndRest(d: nat, rest: nat)
    requires d < 0x80
    ensures (d + 0x80 * rest) / 0x80 == rest && (d + 0x80 * rest) % 0x80 == d
  {
  }

  lemma HighBit(b: Byte)
    ensures b >= 0x80 ==> b % 0x80 + 0x80 == b
  {
  }

  lemma {:induction false} NotZero(s: seq<Byte>)
    requires Extent(s) == Some(|s|) && s[|s| - 1] != 0
    ensures Value(s) > 0
  {
    if |s| > 1 { NotZero(s[1..]); }
  }

  // ---------------------------------------------------------------- the writers and the reader

  /** Writes into memory from p on, up to `end` if there is one. */
  method SerializeVarInt(buf: array<Byte>, p: nat, x: nat, end: Option<nat>) returns (next: Option<nat>)
    requires p <= buf.Length && (end.Some? ==> end.value <= buf.Length)
    requires end.None? ==> p + |Bytes(x)| <= buf.Length
    modifies buf
    ensures next.Some? <==> end.None? || p + |Bytes(x)| <= end.value
    ensures next.Some? ==> next.value == p + |Bytes(x)| && buf[p..next.value] == Bytes(x)
                           && buf[next.value..] == old(buf[next.value..])
    ensures buf[..p] == old(buf[..p])
    ensures next.None? ==> buf[end.value..] == old(buf[end.value..])
  {
    hide Bytes;
    var q, y := p, x;
    ghost var all := Bytes(x);
    assert all[0..] == all;
    while y >= 0x80
      invariant p <= q && q - p < |all| && all[q - p..] == Bytes(y)
      invariant q <= buf.Length && (end.Some? ==> q == p || q <= end.value)
      invariant forall i :: p <= i < q ==> buf[i] == all[i - p]
      invariant forall i :: 0 <= i < p || q <= i < buf.Length ==> buf[i] == old(buf[i])
      decreases y
    {
      BytesStep(y);
      if end.Some? && q >= end.value { return None; }
      buf[q] := y % 0x80 + 0x80;
      assert all[q - p..][0] == all[q - p] && all[q - p..][1..] == all[q + 1 - p..];
      q := q + 1;
      y := y / 0x80;
    }
    BytesStep(y);
    assert |all[q - p..]| == 1 && all[q - p..][0] == all[q - p];
    if end.Some? && q >= end.value { return None; }
    buf[q] := y;
    next := Some(q + 1);
  }

  lemma BytesStep(y: nat)
    ensures y < 0x80 ==> Bytes(y) == [y]
    ensures y >= 0x80 ==> |Bytes(y)| > 1 && Bytes(y)[0] == y % 0x80 + 0x80 && Bytes(y)[1..] == Bytes(y / 0x80)
  {
  }

  lemma {:induction false} ValueAppend(s: seq<Byte>, b: Byte)
    ensures Value(s + [b]) == Value(s) + Power128(|s|) * (b % 0x80)
  {
    if s == [] {
      assert s + [b] == [b] && [b][1..] == [];
    } else {
      ValueAppend(s[1..], b);
      assert (s + [b])[1..] == s[1..] + [b];
      assert 0x80 * (Power128(|s| - 1) * (b % 0x80)) == Power128(|s|) * (b % 0x80);
    }
  }

  lemma {:induction false} ValueBound(s: seq<Byte>)
    ensures Value(s) < Power128(|s|)
  {
    if s != [] { ValueBound(s[1..]); }
  }

  /** Adding a shifted digit, cut off at the width, to a number below the shift: the bits
  do not overlap, so this is what or-ing them in does. */
  lemma ShiftIn(v: nat, p: nat, q: nat, d: nat, w: Width)
    requires v < p && q > 0 && w.Values() == p * q
    ensures v < w.Values() && v + p * d % w.Values() == (v + p * d) % w.Values()
  {
    var n := w.Values();
    var a, c := p * (d % q), d / q;
    RoomAbove(p, q, d % q);
    Split(p, q, d);
    assert p * d == n * c + a;
    Cut(a, w, c);
    Cut(v + a, w, c);
  }

  lemma RoomAbove(p: nat, q: nat, r: nat)
    requires r < q
    ensures p * r + p <= p * q
  {
    assert p * (r + 1) <= p * q;
  }

  lemma Split(p: nat, q: nat, d: nat)
    requires q > 0
    ensures p * d == p * q * (d / q) + p * (d % q)
  {
    assert d == q * (d / q) + d % q;
    assert p * (q * (d / q) + d % q) == p * (q * (d / q)) + p * (d % q);
    assert p * (q * (d / q)) == p * q * (d / q);
  }

  lemma Cut(r: nat, w: Width, k: nat)
    requires r < w.Values()
    ensures (w.Values() * k + r) % w.Values() == r
  {
    if w.W32? {
      assert (0x1_0000_0000 * k + r) % 0x1_0000_0000 == r;
    } else {
      assert (0x1_0000_0000_0000_0000 * k + r) % 0x1_0000_0000_0000_0000 == r;
    }
  }

  lemma SmallRemainder(v: nat, n: nat)
    requires v < n
    ensures v % n == v
  {
  }

  /** Below its last byte a number leaves room in the width. */
  lemma WidthIsMultiple(w: Width, n: nat) returns (q: nat)
    requires n < w.MaxBytes()
    ensures q > 0 && Power128(n) * q == w.Values()
  {
    Powers();
    q := w.Values() / Power128(n);
  }

  /** Reads from p, below `end`. */
  method DeserializeVarInt(s: seq<Byte>, p: nat, end: nat, w: Width) returns (next: Option<nat>, x: nat)
    requires end <= |s|
    ensures p >= end ==> next.None?
    ensures p < end ==> next == (var n := Extent(Limit(s[p..end], w)); if n.None? then None else Some(p + n.value))
    ensures next.Some? ==> p < next.value <= end && x == Value(s[p..next.value]) % w.Values()
  {
    hide Extent, Value;
    if p >= end { return None, 0; }
    var max := p + w.MaxBytes();
    var stop := if end > max then max else end;
    assert Limit(s[p..end], w) == s[p..stop];
    next, x := ReadDigits(s, p, stop, w);
  }

  method ReadDigits(s: seq<Byte>, p: nat, stop: nat, w: Width) returns (next: Option<nat>, x: nat)
    requires p < stop <= |s| && stop - p <= w.MaxBytes()
    ensures next == (var n := Extent(s[p..stop]); if n.None? then None else Some(p + n.value))
    ensures next.Some? ==> p < next.value <= stop && x == Value(s[p..next.value]) % w.Values()
  {
    hide Extent, Value;
    x := s[p] % 0x80;
    var shift := 0x80;
    var q := p;
    assert s[p..p + 1] == [s[p]];
    FirstDigit(s[p], w);
    assert Power128(1) == 0x80 * Power128(0);
    while s[q] >= 0x80
      invariant p <= q < stop
      invariant x == Value(s[p..q + 1]) % w.Values()
      invariant shift == Power128(q + 1 - p)
      invariant More(Extent(s[p..stop]), q - p, Extent(s[q..stop]))
      decreases stop - q
    {
      ExtentStep(s, q, stop);
      q := q + 1;
      if q >= stop { return None, 0; }
      assert s[p..q] + [s[q]] == s[p..q + 1];
      x := AddDigit(s[p..q], s[q], w, x, shift);
      shift := shift * 0x80;
    }
    ExtentStep(s, q, stop);
    next := Some(q + 1);
  }

  lemma ExtentStep(s: seq<Byte>, q: nat, stop: nat)
    requires q < stop <= |s|
    ensures s[q] < 0x80 ==> Extent(s[q..stop]) == Some(1)
    ensures s[q] >= 0x80 ==> More(Extent(s[q..stop]), 1, Extent(s[q + 1..stop]))
    ensures q + 1 == stop ==> Extent(s[q + 1..stop]).None?
  {
    assert s[q..stop][1..] == s[q + 1..stop];
  }

  /** The extent of all, when n bytes of it came before a part with the given extent. */
  ghost predicate More(all: Option<nat>, n: nat, part: Option<nat>) {
    all == if part.None? then None else Some(n + part.value)
  }

  lemma FirstDigit(b: Byte, w: Width)
    ensures Value([b]) % w.Values() == b % 0x80
  {
    assert [b][1..] == [];
    SmallRemainder(b % 0x80, w.Values());
  }

  function AddDigit(s: seq<Byte>, b: Byte, w: Width, x: nat, shift: nat): (x': nat)
    requires |s| < w.MaxBytes() && shift == Power128(|s|) && x == Value(s) % w.Values()
    ensures x' == Value(s + [b]) % w.Values()
  {
    DigitAdded(s, b, w);
    x + shift * (b % 0x80) % w.Values()
  }

  lemma DigitAdded(s: seq<Byte>, b: Byte, w: Width)
    requires |s| < w.MaxBytes()
    ensures Value(s) % w.Values() + Power128(|s|) * (b % 0x80) % w.Values() == Value(s + [b]) % w.Values()
  {
    ValueBound(s);
    ValueAppend(s, b);
    hide Power128, Value;
    var q := WidthIsMultiple(w, |s|);
    ShiftIn(Value(s), Power128(|s|), q, b % 0x80, w);
    SmallRemainder(Value(s), w.Values());
  }
}
