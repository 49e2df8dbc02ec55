/** The unencrypted OpenSSH container for one Ed25519 private key: its format, a parser on
byte strings, and the proof that the one accepts exactly the other. */
module OpenSsh {
  import opened Wrappers

  /** Lengths are limited as the parser compares them as signed numbers. */
  const SIGNED_LIMIT: nat := 0x8000_0000

  function Big32(n: nat): (s: seq<Byte>)
    requires n < 0x1_0000_0000
    ensures |s| == 4
  {
    [n / 0x1000000, n / 0x10000 % 0x100, n / 0x100 % 0x100, n % 0x100]
  }

  function Value32(s: seq<Byte>): (n: nat)
    requires |s| == 4
    ensures n < 0x1_0000_0000
  {
    s[0] as int * 0x1000000 + s[1] as int * 0x10000 + s[2] as int * 0x100 + s[3] as int
  }

  lemma ValueOfBig32(n: nat)
    requires n < 0x1_0000_0000
    ensures Value32(Big32(n)) == n
  {
    assert n / 0x10000 == n / 0x1000000 * 0x100 + n / 0x10000 % 0x100;
    assert n / 0x100 == n / 0x10000 * 0x100 + n / 0x100 % 0x100;
  }

  lemma Big32OfValue(s: seq<Byte>)
    requires |s| == 4
    ensures Big32(Value32(s)) == s
  {
    var n := Value32(s);
    assert n / 0x100 == s[0] as int * 0x10000 + s[1] as int * 0x100 + s[2] as int;
    assert n / 0x10000 == s[0] as int * 0x100 + s[1] as int;
    assert n / 0x1000000 == s[0];
  }

  /** "openssh-key-v1" and its terminator. */
  function Magic(): (s: seq<Byte>)
    ensures |s| == 15
  {
    [111, 112, 101, 110, 115, 115, 104, 45, 107, 101, 121, 45, 118, 49, 0]
  }

  /** Cipher "none", key derivation "none" and no options. */
  function NoCipher(): (s: seq<Byte>)
    ensures |s| == 20
  {
    [0, 0, 0, 4, 110, 111, 110, 101, 0, 0, 0, 4, 110, 111, 110, 101, 0, 0, 0, 0]
  }

  function OneKey(): (s: seq<Byte>)
    ensures |s| == 4
  {
    [0, 0, 0, 1]
  }

  /** "ssh-ed25519" behind its length. */
  function KeyType(): (s: seq<Byte>)
    ensures |s| == 15
  {
    [0, 0, 0, 11, 115, 115, 104, 45, 101, 100, 50, 53, 53, 49, 57]
  }

  // ---------------------------------------------------------------- the format

  function Sized(s: seq<Byte>): seq<Byte>
    requires |s| < SIGNED_LIMIT
  {
    Big32(|s|) + s
  }

  function PublicBlock(pub: seq<Byte>, tail: seq<Byte>): seq<Byte>
    requires |pub| == 32
  {
    KeyType() + (Sized(pub) + tail)
  }

  function SecretBlock(check: nat, priv: seq<Byte>, pub: seq<Byte>, tail: seq<Byte>): seq<Byte>
    requires check < 0x1_0000_0000 && |priv| == 32 && |pub| == 32
  {
    Big32(check) + (Big32(check) + (KeyType() + (Sized(pub) + (Sized(priv + pub) + tail))))
  }

  /** Everything a file may hold: the tails are comments and padding, which the parser
  ignores. */
  datatype File = File(priv: seq<Byte>, pub: seq<Byte>, check: nat,
                       publicTail: seq<Byte>, secretTail: seq<Byte>, rest: seq<Byte>)
  {
    predicate Valid() {
      && |priv| == 32 && |pub| == 32 && check < 0x1_0000_0000
      && |publicTail| + 51 < SIGNED_LIMIT && |secretTail| + 127 < SIGNED_LIMIT
    }

    function Bytes(): seq<Byte>
      requires Valid()
    {
      Magic() + (NoCipher() + (OneKey()
      + (Sized(PublicBlock(pub, publicTail)) + (Sized(SecretBlock(check, priv, pub, secretTail)) + rest))))
    }
  }

  /** The codes of characters. */
  function Ascii(s: string): seq<Byte>
    requires forall i :: 0 <= i < |s| ==> s[i] as int < 128
  {
    seq(|s|, i requires 0 <= i < |s| => s[i] as int)
  }

  /** Lengths have their most significant byte first. */
  lemma Big32Exactly(n: nat)
    requires n < 0x1_0000_0000
    ensures var s := Big32(n);
            n == s[0] as int * 16777216 + s[1] as int * 65536 + s[2] as int * 256 + s[3] as int
  {
    ValueOfBig32(n);
  }

  /** The fixed parts of a file, spelled out. */
  lemma FixedParts()
    ensures Magic() == Ascii("openssh-key-v1") + [0]
    ensures KeyType() == Sized(Ascii("ssh-ed25519"))
    ensures NoCipher() == Sized(Ascii("none")) + Sized(Ascii("none")) + Sized([])
    ensures OneKey() == Big32(1)
  {
    hide Ascii;
    AsciiTexts();
  }

  lemma AsciiTexts()
    ensures Ascii("openssh-key-v1") == [111, 112, 101, 110, 115, 115, 104, 45, 107, 101, 121, 45, 118, 49]
    ensures Ascii("ssh-ed25519") == [115, 115, 104, 45, 101, 100, 50, 53, 53, 49, 57]
    ensures Ascii("none") == [110, 111, 110, 101]
  {
  }

  // ---------------------------------------------------------------- parsing

  function Eat(s: seq<Byte>, word: seq<Byte>): Option<seq<Byte>> {
    if |s| >= |word| && s[..|word|] == word then Some(s[|word|..]) else None
  }

  function TakeU32(s: seq<Byte>): Option<(nat, seq<Byte>)> {
    if |s| >= 4 then Some((Value32(s[..4]), s[4..])) else None
  }

  /** A key of exactly n bytes. */
  function TakeKey(s: seq<Byte>, n: nat): Option<(seq<Byte>, seq<Byte>)> {
    var size :- TakeU32(s);
    if size.0 == n && |size.1| >= n then Some((size.1[..n], size.1[n..])) else None
  }

  function TakeBlock(s: seq<Byte>): Option<(seq<Byte>, seq<Byte>)> {
    var size :- TakeU32(s);
    if size.0 < SIGNED_LIMIT && size.0 <= |size.1| then Some((size.1[..size.0], size.1[size.0..])) else None
  }

  function ParsePublic(s: seq<Byte>): Option<seq<Byte>> {
    var rest :- Eat(s, KeyType());
    var key :- TakeKey(rest, 32);
    Some(key.0)
  }

  /** The private key followed by the public one, if both copies of the latter agree with pub. */
  function ParseSecret(s: seq<Byte>, pub: seq<Byte>): Option<seq<Byte>> {
    var check1 :- TakeU32(s);
    var check2 :- TakeU32(check1.1);
    var rest :- if check1.0 == check2.0 then Eat(check2.1, KeyType()) else None;
    var again :- TakeKey(rest, 32);
    var both :- if again.0 == pub then TakeKey(again.1, 64) else None;
    if both.0[32..] == pub then Some(both.0) else None
  }

  function ParsePrivate(s: seq<Byte>): Option<seq<Byte>> {
    var s1 :- Eat(s, Magic());
    var s2 :- Eat(s1, NoCipher());
    var s3 :- Eat(s2, OneKey());
    var block1 :- TakeBlock(s3);
    var pub :- ParsePublic(block1.0);
    var block2 :- TakeBlock(block1.1);
    ParseSecret(block2.0, pub)
  }

  // ---------------------------------------------------------------- the parser accepts the format

  lemma EatWord(word: seq<Byte>, rest: seq<Byte>)
    ensures Eat(word + rest, word) == Some(rest)
  {
    assert (word + rest)[..|word|] == word && (word + rest)[|word|..] == rest;
  }

  lemma EatenWord(s: seq<Byte>, word: seq<Byte>)
    requires Eat(s, word).Some?
    ensures s == word + Eat(s, word).value
  {
  }

  lemma TakeBig32(n: nat, rest: seq<Byte>)
    requires n < 0x1_0000_0000
    ensures TakeU32(Big32(n) + rest) == Some((n, rest))
  {
    ValueOfBig32(n);
    assert (Big32(n) + rest)[..4] == Big32(n) && (Big32(n) + rest)[4..] == rest;
  }

  lemma TakenU32(s: seq<Byte>)
    requires TakeU32(s).Some?
    ensures TakeU32(s).value.0 < 0x1_0000_0000 && s == Big32(TakeU32(s).value.0) + TakeU32(s).value.1
  {
    Big32OfValue(s[..4]);
  }

  lemma TakeSized(key: seq<Byte>, rest: seq<Byte>)
    requires |key| < SIGNED_LIMIT
    ensures TakeKey(Sized(key) + rest, |key|) == Some((key, rest))
    ensures TakeBlock(Sized(key) + rest) == Some((key, rest))
  {
    hide TakeU32;
    assert Sized(key) + rest == Big32(|key|) + (key + rest);
    TakeBig32(|key|, key + rest);
    assert (key + rest)[..|key|] == key && (key + rest)[|key|..] == rest;
  }

  lemma TakenKey(s: seq<Byte>, n: nat)
    requires TakeKey(s, n).Some? && n < SIGNED_LIMIT
    ensures var t := TakeKey(s, n).value; |t.0| == n && s == Sized(t.0) + t.1
  {
    hide TakeU32;
    TakenU32(s);
    var t := TakeKey(s, n).value;
    assert s == Big32(n) + (t.0 + t.1) == Big32(n) + t.0 + t.1;
  }

  lemma TakenBlock(s: seq<Byte>)
    requires TakeBlock(s).Some?
    ensures var t := TakeBlock(s).value; |t.0| < SIGNED_LIMIT && s == Sized(t.0) + t.1
  {
    hide TakeU32;
    TakenU32(s);
    var t := TakeBlock(s).value;
    var n := TakeU32(s).value.0;
    assert s == Big32(n) + (t.0 + t.1) == Big32(n) + t.0 + t.1;
  }

  lemma PublicAccepted(pub: seq<Byte>, tail: seq<Byte>)
    requires |pub| == 32
    ensures ParsePublic(PublicBlock(pub, tail)) == Some(pub)
  {
    hide Eat, TakeKey, KeyType, Sized;
    EatWord(KeyType(), Sized(pub) + tail);
    TakeSized(pub, tail);
  }

  lemma PublicFits(s: seq<Byte>) returns (tail: seq<Byte>)
    requires ParsePublic(s).Some?
    ensures |ParsePublic(s).value| == 32 && s == PublicBlock(ParsePublic(s).value, tail)
  {
    hide Eat, TakeKey, KeyType, Sized;
    EatenWord(s, KeyType());
    var rest := Eat(s, KeyType()).value;
    TakenKey(rest, 32);
    tail := TakeKey(rest, 32).value.1;
  }

  lemma SecretAccepted(check: nat, priv: seq<Byte>, pub: seq<Byte>, tail: seq<Byte>)
    requires check < 0x1_0000_0000 && |priv| == 32 && |pub| == 32
    ensures ParseSecret(SecretBlock(check, priv, pub, tail), pub) == Some(priv + pub)
  {
    hide Eat, TakeKey, TakeU32, KeyType, Sized, Big32;
    var s4 := Sized(priv + pub) + tail;
    var s3 := Sized(pub) + s4;
    var s2 := KeyType() + s3;
    TakeBig32(check, Big32(check) + s2);
    TakeBig32(check, s2);
    EatWord(KeyType(), s3);
    TakeSized(pub, s4);
    TakeSized(priv + pub, tail);
    assert (priv + pub)[32..] == pub;
  }

  lemma SecretFits(s: seq<Byte>, pub: seq<Byte>) returns (check: nat, tail: seq<Byte>)
    requires ParseSecret(s, pub).Some? && |pub| == 32
    ensures var both := ParseSecret(s, pub).value;
            |both| == 64 && both[32..] == pub && check < 0x1_0000_0000 && s == SecretBlock(check, both[..32], pub, tail)
  {
    hide Eat, TakeKey, TakeU32, KeyType, Sized, Big32;
    TakenU32(s);
    check := TakeU32(s).value.0;
    var s1 := TakeU32(s).value.1;
    TakenU32(s1);
    var s2 := TakeU32(s1).value.1;
    EatenWord(s2, KeyType());
    var s3 := Eat(s2, KeyType()).value;
    TakenKey(s3, 32);
    var s4 := TakeKey(s3, 32).value.1;
    TakenKey(s4, 64);
    tail := TakeKey(s4, 64).value.1;
    var both := TakeKey(s4, 64).value.0;
    assert both[..32] + both[32..] == both;
  }

  lemma BlockSizes(f: File)
    requires f.Valid()
    ensures |PublicBlock(f.pub, f.publicTail)| == 51 + |f.publicTail|
    ensures |SecretBlock(f.check, f.priv, f.pub, f.secretTail)| == 127 + |f.secretTail|
  {
    hide KeyType, Big32;
  }

  lemma FileAccepted(f: File)
    requires f.Valid()
    ensures ParsePrivate(f.Bytes()) == Some(f.priv + f.pub)
  {
    BlockSizes(f);
    hide Eat, TakeBlock, Magic, NoCipher, OneKey, Sized, ParsePublic, ParseSecret, PublicBlock, SecretBlock;
    var public, secret := PublicBlock(f.pub, f.publicTail), SecretBlock(f.check, f.priv, f.pub, f.secretTail);
    var s4 := Sized(secret) + f.rest;
    var s3 := Sized(public) + s4;
    var s2 := OneKey() + s3;
    EatWord(Magic(), NoCipher() + s2);
    EatWord(NoCipher(), s2);
    EatWord(OneKey(), s3);
    TakeSized(public, s4);
    PublicAccepted(f.pub, f.publicTail);
    TakeSized(secret, f.rest);
    SecretAccepted(f.check, f.priv, f.pub, f.secretTail);
  }

  lemma AcceptedIsFile(s: seq<Byte>) returns (f: File)
    requires ParsePrivate(s).Some?
    ensures f.Valid() && s == f.Bytes() && ParsePrivate(s).value == f.priv + f.pub
  {
    hide Eat, TakeBlock, Magic, NoCipher, OneKey, Sized, ParsePublic, ParseSecret, PublicBlock, SecretBlock;
    EatenWord(s, Magic());
    var s1 := Eat(s, Magic()).value;
    EatenWord(s1, NoCipher());
    var s2 := Eat(s1, NoCipher()).value;
    EatenWord(s2, OneKey());
    var s3 := Eat(s2, OneKey()).value;
    TakenBlock(s3);
    var block1 := TakeBlock(s3).value;
    var publicTail := PublicFits(block1.0);
    var pub := ParsePublic(block1.0).value;
    TakenBlock(block1.1);
    var block2 := TakeBlock(block1.1).value;
    var check, secretTail := SecretFits(block2.0, pub);
    var both := ParseSecret(block2.0, pub).value;
    f := File(both[..32], pub, check, publicTail, secretTail, block2.1);
    assert both[..32] + both[32..] == both;
    SizesOf(f, block1.0, block2.0);
  }

  lemma SizesOf(f: File, public: seq<Byte>, secret: seq<Byte>)
    requires |f.priv| == 32 && |f.pub| == 32 && f.check < 0x1_0000_0000
    requires public == PublicBlock(f.pub, f.publicTail)
    requires secret == SecretBlock(f.check, f.priv, f.pub, f.secretTail)
    ensures |public| == 51 + |f.publicTail| && |secret| == 127 + |f.secretTail|
  {
    hide KeyType, Big32;
  }

  /** The parser accepts exactly the files of the format, and reads their keys. */
  lemma ParserIsExact(s: seq<Byte>, both: seq<Byte>)
    ensures ParsePrivate(s) == Some(both) <==>
            exists f: File :: f.Valid() && s == f.Bytes() && both == f.priv + f.pub
  {
    if ParsePrivate(s) == Some(both) {
      var f := AcceptedIsFile(s);
      assert f.Valid() && s == f.Bytes() && both == f.priv + f.pub;
    }
    if f: File :| f.Valid() && s == f.Bytes() && both == f.priv + f.pub {
      FileAccepted(f);
    }
  }
}
