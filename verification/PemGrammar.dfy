/** The lines around the body of a PEM text, and the proof that a body is found exactly
between such lines. */
module PemGrammar {
  import opened Wrappers
  import opened Pem
  import opened Texts

  // ---------------------------------------------------------------- characters

  predicate IsWhite(s: string) {
    forall k :: 0 <= k < |s| ==> s[k] == ' ' || s[k] == '\t' || s[k] == '\n' || s[k] == '\r' || 11 <= s[k] as int <= 12
  }

  predicate AreBlanks(s: string) {
    forall k :: 0 <= k < |s| ==> s[k] == ' ' || s[k] == '\t'
  }

  predicate AreDashes(s: string) {
    forall k :: 0 <= k < |s| ==> s[k] == '-'
  }

  predicate HasNoDash(s: string) {
    forall k :: 0 <= k < |s| ==> s[k] != '-'
  }

  /** One line, without dashes and terminators. */
  predicate IsKind(s: string) {
    forall k :: 0 <= k < |s| ==> s[k] != '-' && s[k] != '\0' && s[k] != '\r' && s[k] != '\n'
  }

  predicate SameLetter(c: char, d: char) {
    || c == d
    || ('a' <= c <= 'z' && d as int == c as int - 32)
    || ('a' <= d <= 'z' && c as int == d as int - 32)
  }

  /** Equal but for the case of letters. */
  predicate SameWord(a: string, b: string) {
    |a| == |b| && forall k :: 0 <= k < |a| ==> SameLetter(a[k], b[k])
  }

  lemma UpperIsSame(c: char, d: char)
    ensures Upper(c) == Upper(d) <==> SameLetter(c, d)
  {
  }

  lemma MatchesIsSame(t: string, i: nat, word: string)
    requires i + |word| <= |t|
    ensures Matches(t, i, word) <==> SameWord(t[i..i + |word|], word)
  {
    forall k | 0 <= k < |word| ensures Upper(t[i + k]) == Upper(word[k]) <==> SameLetter(t[i..i + |word|][k], word[k]) {
      UpperIsSame(t[i + k], word[k]);
    }
  }

  // ---------------------------------------------------------------- runs of characters

  lemma {:induction false} SkipIs(t: string, i: nat, p: char -> bool)
    requires i <= |t|
    ensures var j := SkipWhile(t, i, p);
            (forall k :: i <= k < j ==> p(t[k])) && (j < |t| ==> !p(t[j]))
    decreases |t| - i
  {
    if i < |t| && p(t[i]) { SkipIs(t, i + 1, p); }
  }

  lemma {:induction false} SkipTo(t: string, i: nat, j: nat, p: char -> bool)
    requires i <= j <= |t|
    requires forall k :: i <= k < j ==> p(t[k])
    requires j < |t| ==> !p(t[j])
    ensures SkipWhile(t, i, p) == j
    decreases j - i
  {
    if i < j { SkipTo(t, i + 1, j, p); }
  }

  lemma SkipsWhite(t: string, i: nat, j: nat)
    requires i <= j <= |t|
    ensures SkipWhile(t, i, IsSpace) == j <==> IsWhite(t[i..j]) && (j < |t| ==> !IsWhite([t[j]]))
  {
    SkipIs(t, i, IsSpace);
    assert j < |t| ==> [t[j]][0] == t[j];
    if IsWhite(t[i..j]) && (j < |t| ==> !IsWhite([t[j]])) {
      forall k | i <= k < j ensures IsSpace(t[k]) { assert t[i..j][k - i] == t[k]; }
      SkipTo(t, i, j, IsSpace);
    }
  }

  lemma SkipsBlanks(t: string, i: nat, j: nat)
    requires i <= j <= |t|
    ensures SkipWhile(t, i, IsBlank) == j <==> AreBlanks(t[i..j]) && (j < |t| ==> t[j] != ' ' && t[j] != '\t')
  {
    SkipIs(t, i, IsBlank);
    if AreBlanks(t[i..j]) && (j < |t| ==> t[j] != ' ' && t[j] != '\t') {
      forall k | i <= k < j ensures IsBlank(t[k]) { assert t[i..j][k - i] == t[k]; }
      SkipTo(t, i, j, IsBlank);
    }
  }

  lemma SkipsDashes(t: string, i: nat, j: nat)
    requires i <= j <= |t|
    ensures SkipWhile(t, i, IsDash) == j <==> AreDashes(t[i..j]) && (j < |t| ==> t[j] != '-')
  {
    SkipIs(t, i, IsDash);
    if AreDashes(t[i..j]) && (j < |t| ==> t[j] != '-') {
      forall k | i <= k < j ensures IsDash(t[k]) { assert t[i..j][k - i] == t[k]; }
      SkipTo(t, i, j, IsDash);
    }
  }

  lemma SkipsBody(t: string, i: nat, j: nat)
    requires i <= j <= |t|
    ensures SkipWhile(t, i, IsBody) == j <==> HasNoDash(t[i..j]) && (j < |t| ==> t[j] == '-')
  {
    SkipIs(t, i, IsBody);
    if HasNoDash(t[i..j]) && (j < |t| ==> t[j] == '-') {
      forall k | i <= k < j ensures IsBody(t[k]) { assert t[i..j][k - i] == t[k]; }
      SkipTo(t, i, j, IsBody);
    }
  }

  /** A type that ends at a dash. */
  lemma SkipsKind(t: string, i: nat, j: nat)
    requires i <= j < |t| && t[j] == '-'
    ensures SkipWhile(t, i, IsType) == j <==> IsKind(t[i..j])
  {
    SkipIs(t, i, IsType);
    if IsKind(t[i..j]) {
      forall k | i <= k < j ensures IsType(t[k]) { assert t[i..j][k - i] == t[k]; }
      SkipTo(t, i, j, IsType);
    }
  }

  // ---------------------------------------------------------------- lines

  /** White space, dashes and blanks in front of the word. */
  datatype Opening = Opening(space: string, dashes: string, blank: string)

  /** The word and the blanks after it. */
  datatype Middle = Middle(word: string, blank: string)

  /** The type, dashes and white space. */
  datatype Closing = Closing(kind: string, dashes: string, space: string)

  /** A header or footer line. */
  datatype LineText = LineText(open: Opening, middle: Middle, close: Closing)

  function OpenText(x: Opening): string {
    x.space + x.dashes + x.blank
  }

  function MiddleText(x: Middle): string {
    x.word + x.blank
  }

  function CloseText(x: Closing): string {
    x.kind + x.dashes + x.space
  }

  function Spelled(x: LineText): string {
    OpenText(x.open) + MiddleText(x.middle) + CloseText(x.close)
  }

  predicate IsOpening(x: Opening) {
    IsWhite(x.space) && x.dashes != "" && AreDashes(x.dashes) && AreBlanks(x.blank)
  }

  predicate IsMiddle(x: Middle, word: string) {
    SameWord(x.word, word) && AreBlanks(x.blank)
  }

  /** The type starts with the expected one, in either case. */
  predicate IsClosing(x: Closing, expected: Option<string>) {
    && IsKind(x.kind) && (x.kind != "" ==> x.kind[0] != ' ' && x.kind[0] != '\t')
    && (expected.Some? ==> |expected.value| <= |x.kind| && SameWord(x.kind[..|expected.value|], expected.value))
    && x.dashes != "" && AreDashes(x.dashes) && IsWhite(x.space)
  }

  predicate IsLine(x: LineText, word: string, expected: Option<string>) {
    IsOpening(x.open) && IsMiddle(x.middle, word) && IsClosing(x.close, expected)
  }

  predicate IsLetter(c: char) {
    'a' <= c <= 'z' || 'A' <= c <= 'Z'
  }

  // ---------------------------------------------------------------- the opening

  ghost predicate OpeningAt(t: string, i: nat, j: nat, x: Opening) {
    i <= j <= |t| && IsOpening(x) && t[i..j] == OpenText(x)
  }

  lemma AfterDashesIs(t: string, i: nat) returns (x: Opening)
    requires i <= |t| && AfterDashes(t, i).Some?
    ensures OpeningAt(t, i, AfterDashes(t, i).value, x)
  {
    hide SkipWhile;
    var d := SkipWhile(t, i, IsSpace);
    var w := SkipWhile(t, d, IsDash);
    var s := SkipWhile(t, w, IsBlank);
    SkipsWhite(t, i, d);
    SkipsDashes(t, d, w);
    SkipsBlanks(t, w, s);
    x := Opening(t[i..d], t[d..w], t[w..s]);
    SplitAt(t, i, d, w, s);
  }

  lemma AfterDashesTo(t: string, i: nat, j: nat, x: Opening)
    requires OpeningAt(t, i, j, x) && j < |t| && IsLetter(t[j])
    ensures AfterDashes(t, i) == Some(j)
  {
    hide SkipWhile;
    Pieces(t, i, j, x.space, x.dashes, x.blank);
    var d := i + |x.space|;
    var w := d + |x.dashes|;
    assert t[d..w][0] == t[d] == [t[d]][0];
    assert w < j ==> t[w..j][0] == t[w];
    SkipsWhite(t, i, d);
    SkipsDashes(t, d, w);
    SkipsBlanks(t, w, j);
  }

  // ---------------------------------------------------------------- the word

  ghost predicate MiddleAt(t: string, i: nat, j: nat, x: Middle, word: string) {
    i <= j <= |t| && IsMiddle(x, word) && t[i..j] == MiddleText(x)
  }

  lemma AfterWordIs(t: string, i: nat, word: string) returns (x: Middle)
    requires i <= |t| && AfterWord(t, i, word).Some?
    ensures var j := AfterWord(t, i, word).value;
            MiddleAt(t, i, j, x, word) && j < |t| && t[j] != ' ' && t[j] != '\t'
  {
    hide SkipWhile, Matches;
    var b := i + |word|;
    var j := SkipWhile(t, b, IsBlank);
    MatchesIsSame(t, i, word);
    SkipsBlanks(t, b, j);
    x := Middle(t[i..b], t[b..j]);
    assert t[i..j] == t[i..b] + t[b..j];
  }

  lemma AfterWordTo(t: string, i: nat, j: nat, x: Middle, word: string)
    requires MiddleAt(t, i, j, x, word) && j < |t| && t[j] != ' ' && t[j] != '\t' && t[j] != '\0'
    ensures AfterWord(t, i, word) == Some(j)
  {
    hide SkipWhile, Matches;
    assert x.word + x.blank == x.word + "" + x.blank;
    Pieces(t, i, j, x.word, "", x.blank);
    var b := i + |word|;
    MatchesIsSame(t, i, word);
    SkipsBlanks(t, b, j);
  }

  // ---------------------------------------------------------------- the type

  ghost predicate ClosingAt(t: string, i: nat, j: nat, x: Closing, expected: Option<string>) {
    i <= j <= |t| && IsClosing(x, expected) && t[i..j] == CloseText(x)
  }

  /** Nothing of the line is left over at j. */
  predicate LineEnds(t: string, j: nat, space: string) {
    j < |t| ==> !IsWhite([t[j]]) && (space == "" ==> t[j] != '-')
  }

  lemma AfterTypeIs(t: string, i: nat, expected: Option<string>) returns (x: Closing)
    requires i < |t| && t[i] != ' ' && t[i] != '\t' && AfterType(t, i, expected).Some?
    ensures var j := AfterType(t, i, expected).value; ClosingAt(t, i, j, x, expected) && LineEnds(t, j, x.space)
  {
    hide SkipWhile, Matches;
    var e := SkipWhile(t, i, IsType);
    var c := SkipWhile(t, e, IsDash);
    var j := SkipWhile(t, c, IsSpace);
    SkipsKind(t, i, e);
    SkipsDashes(t, e, c);
    SkipsWhite(t, c, j);
    x := Closing(t[i..e], t[e..c], t[c..j]);
    assert i < e ==> t[i..e][0] == t[i];
    if expected.Some? {
      MatchesIsSame(t, i, expected.value);
      SliceOf(t, i, e, 0, |expected.value|);
    }
    SplitAt(t, i, e, c, j);
  }

  lemma AfterTypeTo(t: string, i: nat, j: nat, x: Closing, expected: Option<string>)
    requires ClosingAt(t, i, j, x, expected) && LineEnds(t, j, x.space)
    ensures AfterType(t, i, expected) == Some(j)
  {
    hide SkipWhile, Matches;
    Pieces(t, i, j, x.kind, x.dashes, x.space);
    var e := i + |x.kind|;
    var c := e + |x.dashes|;
    assert t[e..c][0] == t[e];
    assert c < j ==> t[c..j][0] == t[c];
    SkipsKind(t, i, e);
    SkipsDashes(t, e, c);
    SkipsWhite(t, c, j);
    if expected.Some? {
      MatchesIsSame(t, i, expected.value);
      SliceOf(t, i, e, 0, |expected.value|);
    }
  }

  // ---------------------------------------------------------------- whole lines

  ghost predicate LineAt(t: string, i: nat, j: nat, x: LineText, word: string, expected: Option<string>) {
    i <= j <= |t| && IsLine(x, word, expected) && t[i..j] == Spelled(x)
  }

  lemma BannerIs(t: string, i: nat, word: string, expected: Option<string>) returns (x: LineText)
    requires i <= |t| && Banner(t, i, word, expected).Some?
    ensures var j := Banner(t, i, word, expected).value;
            LineAt(t, i, j, x, word, expected) && LineEnds(t, j, x.close.space)
  {
    hide AfterDashes, AfterWord, AfterType, IsOpening, IsMiddle, IsClosing;
    var start := AfterDashes(t, i).value;
    var open := AfterDashesIs(t, i);
    var kind := AfterWord(t, start, word).value;
    var middle := AfterWordIs(t, start, word);
    var j := AfterType(t, kind, expected).value;
    var close := AfterTypeIs(t, kind, expected);
    x := LineText(open, middle, close);
    SplitAt(t, i, start, kind, j);
  }

  /** Where the parts of a line stand. */
  lemma LineParts(t: string, i: nat, j: nat, x: LineText, word: string, expected: Option<string>)
    requires LineAt(t, i, j, x, word, expected)
    ensures var s := i + |OpenText(x.open)|;
            var k := s + |MiddleText(x.middle)|;
            && OpeningAt(t, i, s, x.open) && MiddleAt(t, s, k, x.middle, word)
            && ClosingAt(t, k, j, x.close, expected)
  {
    hide OpenText, MiddleText, CloseText, IsOpening, IsMiddle, IsClosing;
    Pieces(t, i, j, OpenText(x.open), MiddleText(x.middle), CloseText(x.close));
  }

  lemma MiddleStarts(t: string, s: nat, k: nat, x: Middle, word: string)
    requires MiddleAt(t, s, k, x, word) && word != "" && IsLetter(word[0])
    ensures s < |t| && IsLetter(t[s])
  {
    assert t[s..k][0] == t[s] == x.word[0];
    assert SameLetter(x.word[0], word[0]);
  }

  lemma ClosingStarts(t: string, k: nat, j: nat, x: Closing, expected: Option<string>)
    requires ClosingAt(t, k, j, x, expected)
    ensures k < |t| && t[k] != ' ' && t[k] != '\t' && t[k] != '\0'
  {
    assert t[k..j][0] == t[k] == (x.kind + x.dashes)[0];
  }

  lemma BannerTo(t: string, i: nat, j: nat, x: LineText, word: string, expected: Option<string>)
    requires word != "" && IsLetter(word[0])
    requires LineAt(t, i, j, x, word, expected) && LineEnds(t, j, x.close.space)
    ensures Banner(t, i, word, expected) == Some(j)
  {
    LineParts(t, i, j, x, word, expected);
    var s := i + |OpenText(x.open)|;
    var k := s + |MiddleText(x.middle)|;
    hide AfterDashes, AfterWord, AfterType, OpeningAt, MiddleAt, ClosingAt, LineAt, OpenText, MiddleText;
    MiddleStarts(t, s, k, x.middle, word);
    ClosingStarts(t, k, j, x.close, expected);
    AfterDashesTo(t, i, s, x.open);
    AfterWordTo(t, s, k, x.middle, word);
    AfterTypeTo(t, k, j, x.close, expected);
  }

  /** A line is found exactly where one stands, and read to its end. */
  lemma BannerExactly(t: string, i: nat, j: nat, word: string, expected: Option<string>)
    requires i <= |t| && word != "" && IsLetter(word[0])
    ensures Banner(t, i, word, expected) == Some(j) <==>
            exists x :: LineAt(t, i, j, x, word, expected) && LineEnds(t, j, x.close.space)
  {
    hide Banner, LineAt, LineEnds;
    if Banner(t, i, word, expected) == Some(j) {
      var x := BannerIs(t, i, word, expected);
    }
    if x :| LineAt(t, i, j, x, word, expected) && LineEnds(t, j, x.close.space) {
      BannerTo(t, i, j, x, word, expected);
    }
  }

  /** Whether a line is taken depends on its type, and not on what follows it. */
  lemma BannerFound(t: string, i: nat, j: nat, x: LineText, word: string, expected: Option<string>)
    requires word != "" && IsLetter(word[0]) && LineAt(t, i, j, x, word, None)
    ensures Banner(t, i, word, expected).Some? <==> IsLine(x, word, expected)
  {
    LineParts(t, i, j, x, word, None);
    var s := i + |OpenText(x.open)|;
    var k := s + |MiddleText(x.middle)|;
    hide AfterDashes, AfterWord, AfterType, OpeningAt, MiddleAt, ClosingAt, OpenText, MiddleText, CloseText;
    hide IsOpening, IsMiddle, IsClosing;
    MiddleStarts(t, s, k, x.middle, word);
    ClosingStarts(t, k, j, x.close, None);
    AfterDashesTo(t, i, s, x.open);
    AfterWordTo(t, s, k, x.middle, word);
    AfterTypeFound(t, k, j, x.close, expected);
  }

  lemma AfterTypeFound(t: string, i: nat, j: nat, x: Closing, expected: Option<string>)
    requires ClosingAt(t, i, j, x, None)
    ensures AfterType(t, i, expected).Some? <==> IsClosing(x, expected)
  {
    hide SkipWhile, Matches;
    Pieces(t, i, j, x.kind, x.dashes, x.space);
    var e := i + |x.kind|;
    assert t[e..e + |x.dashes|][0] == t[e];
    SkipsKind(t, i, e);
    if expected.Some? && |expected.value| <= |x.kind| {
      MatchesIsSame(t, i, expected.value);
      SliceOf(t, i, e, 0, |expected.value|);
    }
  }

  // ---------------------------------------------------------------- whole texts

  /** A header, a body, a footer, and anything after it. */
  datatype Message = Message(header: LineText, body: string, footer: LineText, rest: string)

  function MessageText(m: Message): string {
    Spelled(m.header) + m.body + Spelled(m.footer) + m.rest
  }

  /** White space after the header belongs to it, and so do dashes that no white space parts
  from it. */
  predicate IsMessage(m: Message, expected: Option<string>) {
    && IsLine(m.header, "BEGIN", expected) && IsLine(m.footer, "END", expected) && m.footer.open.space == ""
    && HasNoDash(m.body) && if m.body == "" then m.header.close.space != "" else !IsWhite([m.body[0]])
  }

  /** The body that is found in a text. */
  function BodyText(t: string, expected: Option<string>): Option<string> {
    var body :- Body(t, expected);
    Some(t[body.0..body.1])
  }

  lemma MessageIs(t: string, expected: Option<string>) returns (m: Message)
    requires Body(t, expected).Some?
    ensures IsMessage(m, expected) && t == MessageText(m) && BodyText(t, expected) == Some(m.body)
  {
    hide Banner, SkipWhile, IsLine, Spelled;
    var (s, e) := Body(t, expected).value;
    var x := BannerIs(t, 0, "BEGIN", expected);
    var y := BannerIs(t, e, "END", expected);
    var j := Banner(t, e, "END", expected).value;
    SkipsBody(t, s, e);
    FooterStarts(t, e, j, y, expected);
    m := Message(x, t[s..e], y, t[j..]);
    assert t[0..s] == t[..s];
    assert t == t[..s] + t[s..e] + t[e..j] + t[j..];
    if s < e { assert t[s..e][0] == t[s]; }
  }

  lemma FooterStarts(t: string, e: nat, j: nat, y: LineText, expected: Option<string>)
    requires e < |t| && t[e] == '-' && LineAt(t, e, j, y, "END", expected)
    ensures y.open.space == ""
  {
    LineParts(t, e, j, y, "END", expected);
    assert t[e..e + |OpenText(y.open)|][0] == t[e];
  }

  /** The header is read to the body. */
  lemma HeaderRead(m: Message, expected: Option<string>)
    requires IsMessage(m, None) && IsLine(m.header, "BEGIN", expected)
    ensures var t, s := MessageText(m), |Spelled(m.header)|;
            var e := s + |m.body|;
            && e < |t| && Banner(t, 0, "BEGIN", expected) == Some(s) && SkipWhile(t, s, IsBody) == e
            && t[s..e] == m.body
  {
    hide Banner, SkipWhile, IsLine;
    var t := MessageText(m);
    var s := |Spelled(m.header)|;
    var e := s + |m.body|;
    var j := e + |Spelled(m.footer)|;
    MessageParts(m);
    FooterHead(m.footer, None);
    hide Spelled, MessageText;
    assert t[e..j][0] == t[e];
    if s < e { assert t[s..e][0] == t[s]; }
    assert [t[s]][0] == t[s];
    BannerTo(t, 0, s, m.header, "BEGIN", expected);
    SkipsBody(t, s, e);
  }

  lemma MessageFound(m: Message, expected: Option<string>)
    requires IsMessage(m, expected)
    ensures BodyText(MessageText(m), expected) == Some(m.body)
  {
    hide Banner, SkipWhile, IsLine;
    var t := MessageText(m);
    var e := |Spelled(m.header)| + |m.body|;
    AnyKind(m.header, "BEGIN", expected);
    AnyKind(m.footer, "END", expected);
    HeaderRead(m, expected);
    MessageParts(m);
    hide Spelled, MessageText;
    BannerFound(t, e, e + |Spelled(m.footer)|, m.footer, "END", expected);
  }

  lemma FooterHead(y: LineText, expected: Option<string>)
    requires IsLine(y, "END", expected) && y.open.space == ""
    ensures Spelled(y) != "" && Spelled(y)[0] == '-'
  {
    assert Spelled(y)[0] == y.open.dashes[0];
  }

  lemma MessageParts(m: Message)
    ensures var t := MessageText(m);
            var s := |Spelled(m.header)|;
            var e := s + |m.body|;
            var j := e + |Spelled(m.footer)|;
            && j <= |t| && t[0..s] == Spelled(m.header) && t[s..e] == m.body && t[e..j] == Spelled(m.footer)
  {
    var t := MessageText(m);
    hide Spelled;
    assert t[0..|t|] == Spelled(m.header) + m.body + (Spelled(m.footer) + m.rest);
    Pieces(t, 0, |t|, Spelled(m.header), m.body, Spelled(m.footer) + m.rest);
    var e := |Spelled(m.header)| + |m.body|;
    assert t[e..|t|] == "" + Spelled(m.footer) + m.rest;
    Pieces(t, e, |t|, "", Spelled(m.footer), m.rest);
  }

  lemma AnyKind(x: LineText, word: string, expected: Option<string>)
    requires IsLine(x, word, expected)
    ensures IsLine(x, word, None)
  {
  }

  /** A text with a body is taken or refused by the types of its two lines. */
  lemma KindDecides(m: Message, expected: Option<string>)
    requires IsMessage(m, None)
    ensures BodyText(MessageText(m), expected) == if IsMessage(m, expected) then Some(m.body) else None
  {
    hide Banner, SkipWhile, IsLine;
    var t := MessageText(m);
    var s := |Spelled(m.header)|;
    var e := s + |m.body|;
    var j := e + |Spelled(m.footer)|;
    if IsMessage(m, expected) {
      MessageFound(m, expected);
    } else {
      MessageParts(m);
      hide Spelled, MessageText;
      BannerFound(t, 0, s, m.header, "BEGIN", expected);
      BannerFound(t, e, j, m.footer, "END", expected);
      if IsLine(m.header, "BEGIN", expected) {
        MessageFound(m, None);
        HeaderRead(m, expected);
        HeaderRead(m, None);
      }
    }
  }

  /** A body is found exactly in the texts of this form, and it is theirs. */
  lemma BodyExactly(t: string, expected: Option<string>, body: string)
    ensures BodyText(t, expected) == Some(body) <==>
            exists m :: IsMessage(m, expected) && t == MessageText(m) && body == m.body
  {
    hide Body, IsMessage, MessageText;
    if BodyText(t, expected) == Some(body) {
      var m := MessageIs(t, expected);
    }
    if m :| IsMessage(m, expected) && t == MessageText(m) && body == m.body {
      MessageFound(m, expected);
    }
  }
}
