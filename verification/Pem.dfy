/** Finding the body of a PEM text between its BEGIN and END lines, and decoding it. */
module Pem {
  import opened Wrappers
  import Base64Decode

  predicate IsSpace(c: char) {
    c == ' ' || 9 <= c as int <= 13
  }

  predicate IsBlank(c: char) {
    c == ' ' || c == '\t'
  }

  predicate IsDash(c: char) {
    c == '-'
  }

  predicate IsBody(c: char) {
    c != '-'
  }

  /** Part of the type field, which ends at a dash. */
  predicate IsType(c: char) {
    c != '-' && c != '\0' && c != '\r' && c != '\n'
  }

  function Upper(c: char): char {
    if 'a' <= c <= 'z' then c - 32 as char else c
  }

  /** The text has `word` at i, ignoring case. */
  predicate Matches(t: string, i: nat, word: string)
    requires i + |word| <= |t|
  {
    forall k :: 0 <= k < |word| ==> Upper(t[i + k]) == Upper(word[k])
  }

  /** The first position at or after i whose character is not p. */
  function SkipWhile(t: string, i: nat, p: char -> bool): (j: nat)
    requires i <= |t|
    ensures i <= j <= |t|
    decreases |t| - i
  {
    if i < |t| && p(t[i]) then SkipWhile(t, i + 1, p) else i
  }

  /** Input ends here. */
  predicate AtEnd(t: string, i: nat) {
    i >= |t| || t[i] == '\0'
  }

  // The parts of a header or footer line, from the left.

  function AfterDashes(t: string, i: nat): (r: Option<nat>)
    requires i <= |t|
    ensures r.Some? ==> i < r.value < |t|
  {
    var dash := SkipWhile(t, i, IsSpace);
    if AtEnd(t, dash) || t[dash] != '-' then None
    else
      var word := SkipWhile(t, dash, IsDash);
      if AtEnd(t, word) then None
      else
        var start := SkipWhile(t, word, IsBlank);
        if AtEnd(t, start) then None else Some(start)
  }

  function AfterWord(t: string, i: nat, word: string): (r: Option<nat>)
    requires i <= |t|
    ensures r.Some? ==> i <= r.value < |t|
  {
    if i + |word| >= |t| || !Matches(t, i, word) then None
    else
      var kind := SkipWhile(t, i + |word|, IsBlank);
      if AtEnd(t, kind) then None else Some(kind)
  }

  function AfterType(t: string, i: nat, expected: Option<string>): (r: Option<nat>)
    requires i <= |t|
    ensures r.Some? ==> i <= r.value <= |t|
  {
    var end := SkipWhile(t, i, IsType);
    if end >= |t| || t[end] != '-' then None
    else if expected.Some? && (i + |expected.value| > end || !Matches(t, i, expected.value)) then None
    else Some(SkipWhile(t, SkipWhile(t, end, IsDash), IsSpace))
  }

  /** The position after a header or footer line for `word`, of the expected type. */
  function Banner(t: string, i: nat, word: string, expected: Option<string>): (r: Option<nat>)
    requires i <= |t|
    ensures r.Some? ==> i <= r.value <= |t|
  {
    var start :- AfterDashes(t, i);
    var kind :- AfterWord(t, start, word);
    AfterType(t, kind, expected)
  }

  /** Where the body starts and ends. */
  function Body(t: string, expected: Option<string>): (r: Option<(nat, nat)>)
    ensures r.Some? ==> r.value.0 <= r.value.1 <= |t|
  {
    var start :- Banner(t, 0, "BEGIN", expected);
    var end := SkipWhile(t, start, IsBody);
    if end >= |t| || Banner(t, end, "END", expected).None? then None else Some((start, end))
  }

  /** The bytes that the body encodes. */
  function Contents(t: string, expected: Option<string>): Option<seq<Byte>> {
    var body :- Body(t, expected);
    var digits :- Base64Decode.Sextets(t[body.0..body.1], true);
    Some(Base64Decode.Pack(digits))
  }

  // ---------------------------------------------------------------- the scanner

  method EatWhile(t: string, i: nat, p: char -> bool) returns (j: nat)
    requires i <= |t|
    ensures j == SkipWhile(t, i, p)
  {
    j := i;
    while j < |t| && p(t[j])
      invariant i <= j <= |t|
      invariant SkipWhile(t, j, p) == SkipWhile(t, i, p)
      decreases |t| - j
    {
      j := j + 1;
    }
  }

  /** `V_strnicmp` against the whole of word. */
  method Compare(t: string, i: nat, word: string) returns (same: bool)
    requires i + |word| <= |t|
    ensures same <==> Matches(t, i, word)
  {
    var k := 0;
    while k < |word|
      invariant 0 <= k <= |word|
      invariant forall n :: 0 <= n < k ==> Upper(t[i + n]) == Upper(word[n])
    {
      var c1, c2 := t[i + k], word[k];
      if c1 != c2 && Upper(c1) != Upper(c2) { return false; }
      k := k + 1;
    }
    same := true;
  }

  /** `BParsePEMHeaderOrFooter`: the position is meaningful only on success. */
  method ParsePEMHeaderOrFooter(t: string, i: nat, word: string, expected: Option<string>)
    returns (ok: bool, pos: nat)
    requires i <= |t|
    ensures ok <==> Banner(t, i, word, expected).Some?
    ensures ok ==> pos == Banner(t, i, word, expected).value
  {
    hide SkipWhile, Matches;
    pos := EatWhile(t, i, IsSpace);
    if pos >= |t| || t[pos] == '\0' { return false, pos; }
    if t[pos] != '-' { return false, pos; }
    pos := EatWhile(t, pos, IsDash);
    if pos >= |t| || t[pos] == '\0' { return false, pos; }
    pos := EatWhile(t, pos, IsBlank);
    if pos >= |t| || t[pos] == '\0' { return false, pos; }
    if pos + |word| >= |t| { return false, pos; }
    ok := Compare(t, pos, word);
    if !ok { return; }
    pos := EatWhile(t, pos + |word|, IsBlank);
    if pos >= |t| || t[pos] == '\0' { return false, pos; }
    ok, pos := ParseType(t, pos, expected);
  }

  method ParseType(t: string, i: nat, expected: Option<string>) returns (ok: bool, pos: nat)
    requires i <= |t|
    ensures ok <==> AfterType(t, i, expected).Some?
    ensures ok ==> pos == AfterType(t, i, expected).value
  {
    hide SkipWhile, Matches;
    pos := EatWhile(t, i, IsType);
    if pos >= |t| || t[pos] != '-' { return false, pos; }
    if expected.Some? {
      if i + |expected.value| > pos { return false, pos; }
      ok := Compare(t, i, expected.value);
      if !ok { return; }
    }
    pos := EatWhile(t, pos, IsDash);
    pos := EatWhile(t, pos, IsSpace);
    ok := true;
  }

  /** `LocatePEMBody` */
  method LocatePEMBody(t: string, expected: Option<string>) returns (ok: bool, start: nat, end: nat)
    ensures ok <==> Body(t, expected).Some?
    ensures ok ==> (start, end) == Body(t, expected).value
  {
    hide SkipWhile, Banner;
    start, end := 0, 0;
    if |t| == 0 {
      NoBanner("BEGIN", expected);
      return false, 0, 0;
    }
    ok, start := ParsePEMHeaderOrFooter(t, 0, "BEGIN", expected);
    if !ok { return; }
    end := EatWhile(t, start, IsBody);
    if end >= |t| { return false, start, end; }
    var after;
    ok, after := ParsePEMHeaderOrFooter(t, end, "END", expected);
  }

  lemma NoBanner(word: string, expected: Option<string>)
    ensures Banner("", 0, word, expected).None?
  {
  }

  /** `DecodePEMBody`: a buffer of three quarters of the body and one byte is enough. */
  method DecodePEMBody(t: string, expected: Option<string>) returns (ok: bool, data: seq<Byte>)
    ensures ok <==> Contents(t, expected).Some?
    ensures ok ==> data == Contents(t, expected).value
  {
    hide Body, Base64Decode.Sextets, Base64Decode.Pack;
    data := [];
    var start, end;
    ok, start, end := LocatePEMBody(t, expected);
    if !ok { return; }
    var body := t[start..end];
    if Base64Decode.Sextets(body, true).Some? { Base64Decode.ThreeQuartersSuffice(body, true); }
    ok, data := Base64Decode.Base64Decode(body, |body| * 3 / 4 + 1, true);
  }
}
