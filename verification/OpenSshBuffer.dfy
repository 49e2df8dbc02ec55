/** Reading and writing the container through a byte buffer with a cursor. */
module OpenSshBuffer {
  import opened Wrappers
  import opened OpenSsh

  class Reader {
    const data: seq<Byte>
    var get: nat

    ghost predicate Valid()
      reads this
    {
      get <= |data|
    }

    /** What is left to read. */
    ghost function Left(): seq<Byte>
      requires Valid()
      reads this
    {
      data[get..]
    }

    constructor (data: seq<Byte>)
      ensures Valid() && this.data == data && Left() == data
    {
      this.data := data;
      get := 0;
    }

    method CheckAndEatBytes(word: seq<Byte>) returns (ok: bool)
      requires Valid()
      modifies this
      ensures Valid()
      ensures ok <==> Eat(old(Left()), word).Some?
      ensures ok ==> Left() == Eat(old(Left()), word).value
    {
      if |data| - get < |word| { return false; }
      assert data[get..][..|word|] == data[get..get + |word|];
      if data[get..get + |word|] != word { return false; }
      get := get + |word|;
      ok := true;
    }

    method GetUInt32() returns (ok: bool, result: nat)
      requires Valid()
      modifies this
      ensures Valid()
      ensures ok <==> TakeU32(old(Left())).Some?
      ensures ok ==> (result, Left()) == TakeU32(old(Left())).value
    {
      result := 0;
      if |data| - get < 4 { return false, 0; }
      assert data[get..][..4] == data[get..get + 4];
      result := Value32(data[get..get + 4]);
      get := get + 4;
      ok := true;
    }

    method ReadFixedSizeKey(expected: nat) returns (ok: bool, key: seq<Byte>)
      requires Valid()
      modifies this
      ensures Valid()
      ensures ok <==> TakeKey(old(Left()), expected).Some?
      ensures ok ==> (key, Left()) == TakeKey(old(Left()), expected).value
    {
      hide TakeU32;
      key := [];
      var size;
      ok, size := GetUInt32();
      if !ok { return; }
      if size != expected || |data| - get < expected { return false, []; }
      assert data[get..][..expected] == data[get..get + expected];
      key := data[get..get + expected];
      get := get + expected;
    }

    /** The block at the cursor, with its own cursor. */
    method SubBlock() returns (ok: bool, block: Reader?)
      requires Valid()
      modifies this
      ensures Valid()
      ensures ok <==> TakeBlock(old(Left())).Some?
      ensures ok ==> block != null && fresh(block) && block.Valid()
                     && (block.Left(), Left()) == TakeBlock(old(Left())).value
    {
      hide TakeU32;
      block := null;
      var size;
      ok, size := GetUInt32();
      if !ok { return; }
      if size >= SIGNED_LIMIT || |data| - get < size { return false, null; }
      assert data[get..][..size] == data[get..get + size];
      block := new Reader(data[get..get + size]);
      get := get + size;
    }
  }

  method ParseOpenSSHPublic(buf: Reader) returns (ok: bool, key: seq<Byte>)
    requires buf.Valid()
    modifies buf
    ensures ok <==> ParsePublic(old(buf.Left())).Some?
    ensures ok ==> key == ParsePublic(old(buf.Left())).value
  {
    hide Eat, TakeKey, KeyType;
    key := [];
    ok := buf.CheckAndEatBytes(KeyType());
    if !ok { return; }
    ok, key := buf.ReadFixedSizeKey(32);
  }

  method ParseOpenSSHSecret(buf: Reader, pub: seq<Byte>) returns (ok: bool, both: seq<Byte>)
    requires buf.Valid()
    modifies buf
    ensures ok <==> ParseSecret(old(buf.Left()), pub).Some?
    ensures ok ==> both == ParseSecret(old(buf.Left()), pub).value
  {
    hide Eat, TakeKey, TakeU32, KeyType;
    both := [];
    var check1, check2, pub2;
    ok, check1 := buf.GetUInt32();
    if !ok { return; }
    ok, check2 := buf.GetUInt32();
    if !ok { return; }
    if check1 != check2 { return false, []; }
    ok := buf.CheckAndEatBytes(KeyType());
    if !ok { return; }
    ok, pub2 := buf.ReadFixedSizeKey(32);
    if !ok { return; }
    if pub2 != pub { return false, []; }
    ok, both := buf.ReadFixedSizeKey(64);
    if !ok { return; }
    TakenKeySize(old(buf.Left()), both, pub);
    if both[32..] != pub { return false, []; }
  }

  /** The 64 byte key that was read is 64 bytes long. */
  lemma TakenKeySize(s: seq<Byte>, both: seq<Byte>, pub: seq<Byte>)
    requires TakeU32(s).Some?
    requires TakeU32(TakeU32(s).value.1).Some?
    requires Eat(TakeU32(TakeU32(s).value.1).value.1, KeyType()).Some?
    requires TakeKey(Eat(TakeU32(TakeU32(s).value.1).value.1, KeyType()).value, 32).Some?
    requires TakeKey(TakeKey(Eat(TakeU32(TakeU32(s).value.1).value.1, KeyType()).value, 32).value.1, 64).Some?
    requires both == TakeKey(TakeKey(Eat(TakeU32(TakeU32(s).value.1).value.1, KeyType()).value, 32).value.1, 64).value.0
    ensures |both| == 64
  {
    TakenKey(TakeKey(Eat(TakeU32(TakeU32(s).value.1).value.1, KeyType()).value, 32).value.1, 64);
  }

  /** `BParseOpenSSHBinaryEd25519Private` */
  method ParseOpenSSHPrivate(data: seq<Byte>) returns (ok: bool, both: seq<Byte>)
    ensures ok <==> ParsePrivate(data).Some?
    ensures ok ==> both == ParsePrivate(data).value
  {
    hide Eat, TakeBlock, Magic, NoCipher, OneKey, ParsePublic, ParseSecret;
    both := [];
    var buf := new Reader(data);
    ok := buf.CheckAndEatBytes(Magic());
    if !ok { return; }
    ok := buf.CheckAndEatBytes(NoCipher());
    if !ok { return; }
    ok := buf.CheckAndEatBytes(OneKey());
    if !ok { return; }
    var block, pub;
    ok, block := buf.SubBlock();
    if !ok { return; }
    ok, pub := ParseOpenSSHPublic(block);
    if !ok { return; }
    ok, block := buf.SubBlock();
    if !ok { return; }
    ok, both := ParseOpenSSHSecret(block, pub);
  }

  class Writer {
    var data: seq<Byte>

    constructor ()
      ensures data == []
    {
      data := [];
    }

    method Put(bytes: seq<Byte>)
      modifies this
      ensures data == old(data) + bytes
    {
      data := data + bytes;
    }

    method WriteUInt32(n: nat)
      requires n < 0x1_0000_0000
      modifies this
      ensures data == old(data) + Big32(n)
    {
      Put(Big32(n));
    }

    method WriteFixedSizeKey(key: seq<Byte>)
      requires |key| < SIGNED_LIMIT
      modifies this
      ensures data == old(data) + Sized(key)
    {
      WriteUInt32(|key|);
      Put(key);
      assert old(data) + Big32(|key|) + key == old(data) + (Big32(|key|) + key);
    }

    /** Leaves a hole, of whatever the buffer held, for the length of the block. */
    method BeginSubBlock() returns (tell: nat)
      modifies this
      ensures tell == |old(data)| && |data| == tell + 4 && data[..tell] == old(data)
    {
      var a: Byte, b: Byte, c: Byte, d: Byte := *, *, *, *;
      tell := |data|;
      data := data + [a, b, c, d];
    }

    /** Patches the length of the block that began at tell into its hole. */
    method EndSubBlock(tell: nat)
      requires tell + 4 <= |data| && |data| - tell - 4 < SIGNED_LIMIT
      modifies this
      ensures data == old(data[..tell]) + Sized(old(data[tell + 4..]))
    {
      var written := |data| - tell - 4;
      var n := Big32(written);
      data := data[tell := n[0]][tell + 1 := n[1]][tell + 2 := n[2]][tell + 3 := n[3]];
    }
  }

  method WritePublicBlock(buf: Writer, pub: seq<Byte>)
    requires |pub| == 32
    modifies buf
    ensures buf.data == old(buf.data) + Sized(PublicBlock(pub, []))
  {
    hide KeyType, Big32, Sized;
    SizedSize(pub);
    ghost var before := buf.data;
    var tell := buf.BeginSubBlock();
    ghost var hole := buf.data;
    buf.Put(KeyType());
    buf.WriteFixedSizeKey(pub);
    assert buf.data == hole + (KeyType() + (Sized(pub) + []));
    assert buf.data[..tell] == before && buf.data[tell + 4..] == PublicBlock(pub, []);
    buf.EndSubBlock(tell);
  }

  lemma SizedSize(s: seq<Byte>)
    requires |s| < SIGNED_LIMIT
    ensures |Sized(s)| == 4 + |s|
  {
  }

  method WriteSecretBlock(buf: Writer, priv: seq<Byte>, pub: seq<Byte>)
    requires |priv| == 32 && |pub| == 32
    modifies buf
    ensures buf.data == old(buf.data) + Sized(SecretBlock(0x12345678, priv, pub, []))
  {
    hide KeyType, Big32, Sized;
    SizedSize(pub);
    SizedSize(priv + pub);
    ghost var before := buf.data;
    var tell := buf.BeginSubBlock();
    ghost var hole := buf.data;
    ghost var c := Big32(0x12345678);
    buf.WriteUInt32(0x12345678);
    buf.WriteUInt32(0x12345678);
    buf.Put(KeyType());
    buf.WriteFixedSizeKey(pub);
    buf.WriteUInt32(64);
    buf.Put(priv);
    buf.Put(pub);
    SizedParts(priv, pub);
    assert buf.data == hole + (c + (c + (KeyType() + (Sized(pub) + (Sized(priv + pub) + [])))));
    assert buf.data[..tell] == before && buf.data[tell + 4..] == SecretBlock(0x12345678, priv, pub, []);
    buf.EndSubBlock(tell);
  }

  lemma SizedParts(priv: seq<Byte>, pub: seq<Byte>)
    requires |priv| == 32 && |pub| == 32
    ensures Sized(priv + pub) == Big32(64) + priv + pub
  {
  }

  /** The file of a key pair as it is written. */
  function PrivateFile(priv: seq<Byte>, pub: seq<Byte>): (f: File)
    requires |priv| == 32 && |pub| == 32
    ensures f.Valid()
  {
    File(priv, pub, 0x12345678, [], [], [])
  }

  lemma NoTail(a: seq<Byte>, b: seq<Byte>)
    ensures a + (b + []) == a + b
  {
  }

  lemma NestedSecret(a: seq<Byte>, k: seq<Byte>, p: seq<Byte>, q: seq<Byte>)
    ensures a + (a + (k + (p + (q + [])))) == a + a + k + p + q
  {
    assert a + (a + (k + (p + q))) == a + a + (k + (p + q));
    assert a + a + (k + (p + q)) == a + a + k + p + q;
  }

  /** The file that is written, piece by piece: 51 bytes of public key, and 127 with both keys
  behind two equal check numbers. */
  lemma FileLayout(priv: seq<Byte>, pub: seq<Byte>)
    requires |priv| == 32 && |pub| == 32
    ensures var public := KeyType() + Sized(pub);
            var check := Big32(0x12345678);
            var secret := check + check + KeyType() + Sized(pub) + (Big32(64) + priv + pub);
            && |public| == 51 && |secret| == 127
            && PrivateFile(priv, pub).Bytes()
               == Magic() + NoCipher() + OneKey() + (Big32(51) + public) + (Big32(127) + secret)
  {
    hide Magic, NoCipher, OneKey, KeyType, Big32;
    var check := Big32(0x12345678);
    NoTail(KeyType(), Sized(pub));
    NestedSecret(check, KeyType(), Sized(pub), Sized(priv + pub));
    SizedParts(priv, pub);
    var public, secret := PublicBlock(pub, []), SecretBlock(0x12345678, priv, pub, []);
    hide PublicBlock, SecretBlock;
    Regroup(Magic(), NoCipher(), OneKey(), Sized(public), Sized(secret));
    assert [] + Magic() == Magic();
  }

  /** `OpenSSHBinaryWriteEd25519Private` */
  method WriteOpenSSHPrivate(priv: seq<Byte>, pub: seq<Byte>) returns (data: seq<Byte>)
    requires |priv| == 32 && |pub| == 32
    ensures data == PrivateFile(priv, pub).Bytes() && |data| == 225
  {
    BlockSizes(PrivateFile(priv, pub));
    hide Magic, NoCipher, OneKey, Sized, PublicBlock, SecretBlock;
    SizedSize(PublicBlock(pub, []));
    SizedSize(SecretBlock(0x12345678, priv, pub, []));
    var buf := new Writer();
    buf.Put(Magic());
    buf.Put(NoCipher());
    buf.Put(OneKey());
    WritePublicBlock(buf, pub);
    WriteSecretBlock(buf, priv, pub);
    data := buf.data;
    ghost var a, b := Sized(PublicBlock(pub, [])), Sized(SecretBlock(0x12345678, priv, pub, []));
    Regroup(Magic(), NoCipher(), OneKey(), a, b);
  }

  lemma Regroup(a: seq<Byte>, b: seq<Byte>, c: seq<Byte>, d: seq<Byte>, e: seq<Byte>)
    ensures [] + a + b + c + d + e == a + (b + (c + (d + (e + []))))
    ensures |[] + a + b + c + d + e| == |a| + |b| + |c| + |d| + |e|
  {
    assert a + b + c + d + e == a + (b + c + d + e);
    assert b + c + d + e == b + (c + d + e);
    assert c + d + e == c + (d + e);
  }
}
