/** An Ed25519 signing key that is saved as, and loaded from, an OpenSSH PEM text. */
module KeyPair {
  import opened Wrappers
  import opened Base64
  import Base64Decode
  import opened OpenSsh
  import opened OpenSshBuffer
  import opened Pem
  import G = PemGrammar

  const KIND := "OPENSSH PRIVATE KEY"
  const HEADER := "-----" + "BEGIN" + " " + KIND + "-----"
  const FOOTER := "-----" + "END" + " " + KIND + "-----"

  /** The derivation of a public key is a parameter; all that is known is its size. */
  ghost predicate IsDerivation(derive: seq<Byte> -> seq<Byte>) {
    forall k: seq<Byte> {:trigger derive(k)} :: |k| == 32 ==> |derive(k)| == 32
  }

  /** `V_strncat` into a buffer of `size` characters. */
  function Append(text: string, more: string, size: nat): string
    requires |text| < size
  {
    if |text| + |more| < size then text + more else text + more[..size - 1 - |text|]
  }

  function PemWith(data: seq<Byte>, lineBreak: string): string {
    HEADER + lineBreak + Encoded(data, lineBreak, GROUPS_PER_LINE) + FOOTER + lineBreak
  }

  /** The text that is written. */
  function PemText(data: seq<Byte>): string {
    PemWith(data, "\r\n")
  }

  /** The size that is asked for. */
  function Required(n: nat, wide: bool): nat {
    |HEADER| + 2 + |FOOTER| + 2 + MaxOutput(n, "\r\n", wide)
  }

  /** It is exact for all data, and more than enough for none. */
  lemma RequiredIsExact(data: seq<Byte>, wide: bool)
    ensures Required(|data|, wide) >= |PemText(data)| + 1
    ensures Required(|data|, wide) == |PemText(data)| + 1 <==> data != []
  {
    MaxOutputIsExact(data, "\r\n", wide);
    if data == [] {
      assert (UINT32 - 1) / GROUPS_PER_LINE == 238609294;
      assert (UINT32 * UINT32 - 1) / GROUPS_PER_LINE == 1024819115206086200;
    } else {
      hide MaxOutput, Encoded;
    }
  }

  /** `GetBinaryDataAsPEM` into a buffer of `size` characters. */
  method GetBinaryDataAsPEM(data: seq<Byte>, size: nat, wide: bool) returns (ok: bool, required: nat, text: string)
    ensures ok <==> size >= Required(|data|, wide)
    ensures ok ==> text == PemText(data) && required == |text| + 1
    ensures !ok ==> required == Required(|data|, wide)
  {
    RequiredIsExact(data, wide);
    hide Encoded, MaxOutput;
    text := "";
    required := |HEADER| + 2 + |FOOTER| + 2 + MaxOutput(|data|, "\r\n", wide);
    if size < required { return false, required, ""; }
    text := Append("", HEADER, size);
    assert text == HEADER;
    text := Append(text, "\r\n", size);
    var body, length;
    ok, body, length := Base64Encode(data, size - |text|, "\r\n", wide);
    if !ok { return; }
    text := text + body;
    text := Append(text, FOOTER, size);
    text := Append(text, "\r\n", size);
    required := |text| + 1;
  }

  /** The key in a text: the container must hold it with the public key derived from it. */
  function KeyIn(t: string, derive: seq<Byte> -> seq<Byte>): Option<seq<Byte>> {
    var data :- Contents(t, Some(KIND));
    var both :- ParsePrivate(data);
    if |both| == 64 && derive(both[..32]) == both[32..] then Some(both[..32]) else None
  }

  class SigningPrivateKey {
    const derive: seq<Byte> -> seq<Byte>
    var raw: seq<Byte>
    var publicKey: seq<Byte>

    /** A key is either wiped or 32 bytes with its own public key. */
    ghost predicate Valid()
      reads this
    {
      IsDerivation(derive) && (raw != [] ==> |raw| == 32 && publicKey == derive(raw))
    }

    constructor (derive: seq<Byte> -> seq<Byte>)
      requires IsDerivation(derive)
      ensures Valid() && raw == [] && this.derive == derive
    {
      this.derive := derive;
      raw, publicKey := [], [];
    }

    method Wipe()
      modifies this
      ensures raw == []
    {
      raw, publicKey := [], [];
    }

    method SetRawData(data: seq<Byte>) returns (ok: bool)
      requires IsDerivation(derive)
      modifies this
      ensures Valid() && (ok <==> |data| == 32)
      ensures raw == if ok then data else []
    {
      Wipe();
      if |data| != 32 { return false; }
      raw := data;
      publicKey := derive(raw);
      ok := true;
    }

    /** `GetAsPEM` */
    method GetAsPEM(size: nat, wide: bool) returns (ok: bool, required: nat, text: string)
      requires Valid()
      ensures ok <==> raw != [] && size > |PemText(PrivateFile(raw, publicKey).Bytes())|
      ensures ok ==> text == PemText(PrivateFile(raw, publicKey).Bytes()) && required == |text| + 1
    {
      hide PemText, Required;
      ok, required, text := false, 0, "";
      if raw == [] { return; }
      var data := WriteOpenSSHPrivate(raw, publicKey);
      RequiredIsExact(data, wide);
      ok, required, text := GetBinaryDataAsPEM(data, size, wide);
    }

    /** `ParsePEM` */
    method ParsePEM(t: string) returns (ok: bool)
      requires IsDerivation(derive)
      modifies this
      ensures Valid() && (ok <==> KeyIn(t, derive).Some?)
      ensures raw == if ok then KeyIn(t, derive).value else []
    {
      hide Contents, ParsePrivate;
      Wipe();
      var data, both;
      ok, data := DecodePEMBody(t, Some(KIND));
      if !ok { return; }
      ok, both := ParseOpenSSHPrivate(data);
      if !ok { return; }
      BothKeys(data);
      ok := SetRawData(both[..32]);
      if publicKey == both[32..] { return true; }
      Wipe();
      ok := false;
    }
  }

  lemma BothKeys(data: seq<Byte>)
    requires ParsePrivate(data).Some?
    ensures |ParsePrivate(data).value| == 64
  {
    hide ParsePrivate;
    var f := AcceptedIsFile(data);
  }

  // ---------------------------------------------------------------- the round trip

  /** A letter of the text, or white space. */
  predicate IsTextChar(c: char) {
    Base64Decode.IsLetter(c) || c == '=' || G.IsWhite([c])
  }

  lemma GroupInAlphabet(g: seq<Byte>)
    requires 1 <= |g| <= 3
    ensures forall k :: 0 <= k < 4 ==> IsTextChar(GroupText(g)[k])
    ensures !G.IsWhite([GroupText(g)[0]])
  {
    hide Char64, Digits;
    forall v: nat | v < 64 ensures Base64Decode.IsLetter(Char64(v)) {
      Base64Decode.CharCode(v);
    }
    assert [GroupText(g)[0]][0] == GroupText(g)[0];
  }

  lemma WhiteChars(s: string)
    requires G.IsWhite(s)
    ensures forall k :: 0 <= k < |s| ==> IsTextChar(s[k])
    ensures Base64Decode.CanBreak(s, true)
  {
    forall k | 0 <= k < |s| ensures G.IsWhite([s[k]]) { assert [s[k]][0] == s[k]; }
  }

  lemma {:induction false} EncodedInAlphabet(data: seq<Byte>, lineBreak: string, left: nat)
    requires G.IsWhite(lineBreak)
    ensures forall k :: 0 <= k < |Encoded(data, lineBreak, left)| ==> IsTextChar(Encoded(data, lineBreak, left)[k])
    decreases |data|
  {
    hide GroupText, IsTextChar;
    WhiteChars(lineBreak);
    if data != [] {
      EncodedInAlphabet(Rest(data), lineBreak, NextLeft(left));
      GroupInAlphabet(First(data));
    }
  }

  lemma EncodedIsBody(data: seq<Byte>, lineBreak: string)
    requires data != [] && G.IsWhite(lineBreak)
    ensures var body := Encoded(data, lineBreak, GROUPS_PER_LINE);
            body != "" && G.HasNoDash(body) && !G.IsWhite([body[0]])
  {
    hide GroupText;
    var body := Encoded(data, lineBreak, GROUPS_PER_LINE);
    EncodedInAlphabet(data, lineBreak, GROUPS_PER_LINE);
    GroupInAlphabet(First(data));
    assert body[0] == GroupText(First(data))[0];
    hide Encoded;
    forall k | 0 <= k < |body| ensures body[k] != '-' { assert IsTextChar(body[k]) && [body[k]][0] == body[k]; }
  }

  function KeyLine(lead: string, word: string, lineBreak: string): G.LineText {
    G.LineText(G.Opening(lead, "-----", ""), G.Middle(word, " "), G.Closing(KIND, "-----", lineBreak))
  }

  lemma KeyLineText(lead: string, word: string, lineBreak: string)
    requires G.IsWhite(lead) && G.IsWhite(lineBreak)
    ensures G.IsLine(KeyLine(lead, word, lineBreak), word, Some(KIND))
    ensures G.Spelled(KeyLine(lead, word, lineBreak)) == lead + ("-----" + word + " " + KIND + "-----") + lineBreak
  {
    KindIsPlain("OPENSSH PRIVATE KEY");
    var kind := KIND;
    assert kind[..|kind|] == kind;
    FiveDashes(lead, word, kind, lineBreak);
  }

  lemma FiveDashes(lead: string, word: string, kind: string, lineBreak: string)
    ensures lead + "-----" + "" + (word + " ") + (kind + "-----" + lineBreak)
         == lead + ("-----" + word + " " + kind + "-----") + lineBreak
  {
  }

  lemma KindIsPlain(s: string)
    requires s == "OPENSSH PRIVATE KEY"
    ensures G.IsKind(s) && s != "" && s[0] == 'O'
  {
  }

  /** What a text holds, given its body. */
  lemma MessageContents(lead: string, space: string, body: string, end: string, rest: string)
    requires G.IsWhite(lead) && G.IsWhite(space) && G.IsWhite(end) && G.HasNoDash(body)
    requires if body == "" then space != "" else !G.IsWhite([body[0]])
    ensures var digits := Base64Decode.Sextets(body, true);
            Contents(lead + (HEADER + space + body + FOOTER + end) + rest, Some(KIND))
            == if digits.None? then None else Some(Base64Decode.Pack(digits.value))
  {
    hide G.Spelled, G.IsLine, Body, Base64Decode.Sextets, Base64Decode.Pack;
    KeyLineText(lead, "BEGIN", space);
    KeyLineText("", "END", end);
    var m := G.Message(KeyLine(lead, "BEGIN", space), body, KeyLine("", "END", end), rest);
    G.MessageFound(m, Some(KIND));
    Regrouped(lead, HEADER, space, body, FOOTER, end, rest);
  }

  lemma Regrouped(lead: string, h: string, space: string, body: string, f: string, end: string, rest: string)
    ensures lead + h + space + body + ("" + f + end) + rest == lead + (h + space + body + f + end) + rest
  {
    assert lead + h + space + body + ("" + f + end) == lead + (h + space + body + f + end);
  }

  /** The bytes of any PEM text come back out of it, whatever white space breaks its lines and
  stands in front of it, and whatever follows it. */
  lemma PemRoundTrip(data: seq<Byte>, lineBreak: string, lead: string, rest: string)
    requires G.IsWhite(lineBreak) && G.IsWhite(lead) && (data != [] || lineBreak != "")
    ensures Contents(lead + PemWith(data, lineBreak) + rest, Some("OPENSSH PRIVATE KEY")) == Some(data)
  {
    hide Contents, G.IsWhite, G.HasNoDash, Base64Decode.CanBreak;
    if data == [] {
      TwoBreaks(lineBreak);
      MessageContents(lead, lineBreak + lineBreak, "", lineBreak, rest);
      assert HEADER + (lineBreak + lineBreak) + "" == HEADER + lineBreak + lineBreak;
    } else {
      hide Encoded, Base64Decode.Sextets, Base64Decode.Pack;
      EncodedIsBody(data, lineBreak);
      WhiteChars(lineBreak);
      Base64Decode.RoundTrip(data, lineBreak, true);
      MessageContents(lead, lineBreak, Encoded(data, lineBreak, GROUPS_PER_LINE), lineBreak, rest);
    }
  }

  lemma TwoBreaks(lineBreak: string)
    requires G.IsWhite(lineBreak)
    ensures G.IsWhite(lineBreak + lineBreak) && G.HasNoDash("")
  {
  }

  /** A key that is saved and loaded is the same key, also when its line breaks became other
  white space in between. */
  lemma KeyRoundTrip(raw: seq<Byte>, derive: seq<Byte> -> seq<Byte>, lineBreak: string, lead: string, rest: string)
    requires IsDerivation(derive) && |raw| == 32 && G.IsWhite(lineBreak) && G.IsWhite(lead)
    ensures var data := PrivateFile(raw, derive(raw)).Bytes();
            && PemText(data) == PemWith(data, "\r\n")
            && KeyIn(lead + PemWith(data, lineBreak) + rest, derive) == Some(raw)
  {
    var f := PrivateFile(raw, derive(raw));
    FileAccepted(f);
    NotEmpty(f);
    hide Contents, ParsePrivate, PemWith;
    PemRoundTrip(f.Bytes(), lineBreak, lead, rest);
    assert (raw + derive(raw))[..32] == raw && (raw + derive(raw))[32..] == derive(raw);
  }

  lemma NotEmpty(f: File)
    requires f.Valid()
    ensures f.Bytes() != []
  {
  }

  /** A text is accepted exactly when its body decodes to a file of the format whose
  public key is the one derived from its private key. */
  lemma AcceptedKeys(t: string, derive: seq<Byte> -> seq<Byte>, key: seq<Byte>)
    ensures KeyIn(t, derive) == Some(key) <==>
            exists f: File :: f.Valid() && Contents(t, Some("OPENSSH PRIVATE KEY")) == Some(f.Bytes())
                              && f.priv == key && f.pub == derive(key)
  {
    var data := Contents(t, Some(KIND));
    hide Contents, ParsePrivate;
    if KeyIn(t, derive) == Some(key) {
      var f := AcceptedIsFile(data.value);
      var both := ParsePrivate(data.value).value;
      assert both[..32] == f.priv && both[32..] == f.pub;
      assert f.Valid() && data == Some(f.Bytes()) && f.priv == key && f.pub == derive(key);
    }
    if f: File :| f.Valid() && data == Some(f.Bytes()) && f.priv == key && f.pub == derive(key) {
      FileAccepted(f);
      var both := f.priv + f.pub;
      assert both[..32] == f.priv && both[32..] == f.pub;
    }
  }
}
