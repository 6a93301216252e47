/**
 * PKCS#1 v1.5 encryption and signatures (src/bootloader/myboot/rsa.c, lines
 * 252-466; sections 7.2, 8.2 and 9.2 of RFC 8017).
 */
module Pkcs1 {
  import opened Arith
  import opened Bits
  import opened Octets
  import opened Exponentiation
  import opened NumberTheory
  import opened Rsa
  import opened OptionSlots

  const RSA_RAW := 0
  const RSA_MD2 := 2
  const RSA_MD4 := 3
  const RSA_MD5 := 4
  const RSA_SHA1 := 5
  const RSA_SIGN: byte := 1
  const RSA_CRYPT: byte := 2

  // ---- fixed-length encodings ----

  /** The len-byte big-endian encoding of x. */
  function I2osp(x: nat, len: nat): (s: seq<byte>)
    ensures |s| == len
  {
    if len == 0 then [] else
      var w := Pow2(8 * (len - 1));
      [(x / w) % 256] + I2osp(x % w, len - 1)
  }

  lemma {:induction false} I2ospVal(x: nat, len: nat)
    requires x < Pow2(8 * len)
    ensures BytesVal(I2osp(x, len)) == x
    decreases len
  {
    hide Pow, Pow2;
    if len == 0 {
      Pow2Step(0);
    } else {
      var w := Pow2(8 * (len - 1));
      Pow2Byte(len - 1);
      DivMod(x, w);
      DivBelow(x, 256, w);
      DivModUnique(x / w, 0, x / w, 256);
      I2ospVal(x % w, len - 1);
      var s := I2osp(x, len);
      assert s[1..] == I2osp(x % w, len - 1);
    }
  }

  /** A byte string of known length and value is that encoding. */
  lemma I2ospUnique(s: seq<byte>, x: nat)
    requires BytesVal(s) == x
    ensures s == I2osp(x, |s|)
  {
    hide BytesVal, I2osp, Pow, Pow2;
    BytesBound(s);
    I2ospVal(x, |s|);
    BytesInjective(s, I2osp(x, |s|));
  }

  // ---- the zero separator ----

  /** Index of the first zero byte from i on. */
  function FirstZero(s: seq<byte>, i: nat): (r: Option<nat>)
    ensures r.None? <==> forall k :: i <= k < |s| ==> s[k] != 0
    ensures r.Some? ==> i <= r.value < |s| && s[r.value] == 0 && forall k :: i <= k < r.value ==> s[k] != 0
    decreases |s| - i
  {
    if i >= |s| then None else if s[i] == 0 then Some(i) else FirstZero(s, i + 1)
  }

  lemma FirstZeroIs(s: seq<byte>, i: nat, z: nat)
    requires i <= z < |s| && s[z] == 0 && forall k :: i <= k < z ==> s[k] != 0
    ensures FirstZero(s, i) == Some(z)
  {}

  // ---- encryption ----

  predicate NonZero(s: seq<byte>) {
    forall k :: 0 <= k < |s| ==> s[k] != 0
  }

  /** 00 02 PS 00 M. */
  function CryptBlock(pad: seq<byte>, msg: seq<byte>): seq<byte> {
    [0, RSA_CRYPT] + pad + [0] + msg
  }

  /** The message in a decrypted block, if its padding is right. */
  function Unpad(s: seq<byte>): Option<seq<byte>>
    requires |s| >= 2
  {
    if s[0] != 0 || s[1] != RSA_CRYPT then None
    else match FirstZero(s, 2) case None => None case Some(z) => Some(s[z + 1..])
  }

  lemma UnpadCryptBlock(pad: seq<byte>, msg: seq<byte>)
    requires NonZero(pad)
    ensures Unpad(CryptBlock(pad, msg)) == Some(msg)
  {
    var s := CryptBlock(pad, msg);
    var z := 2 + |pad|;
    forall k | 2 <= k < z
      ensures s[k] != 0
    {
      assert s[k] == pad[k - 2];
    }
    FirstZeroIs(s, 2, z);
    assert s[z + 1..] == msg;
  }

  /** A message is unpadded from exactly the blocks it can be padded to. */
  lemma UnpadIs(s: seq<byte>, msg: seq<byte>)
    requires |s| >= 2
    ensures Unpad(s) == Some(msg) <==> exists pad: seq<byte> :: 0 !in pad && s == [0, 2] + pad + [0] + msg
  {
    if Unpad(s) == Some(msg) {
      var z := FirstZero(s, 2).value;
      var pad := s[2..z];
      assert forall k :: 0 <= k < |pad| ==> pad[k] == s[k + 2] != 0;
      assert s == [0, 2] + pad + [0] + msg;
    }
    if pad: seq<byte> :| 0 !in pad && s == [0, 2] + pad + [0] + msg {
      UnpadCryptBlock(pad, msg);
    }
  }

  /** A usable public key: odd modulus, and len its size in bytes. */
  ghost predicate PublicKey(ctx: RsaContext)
    reads ctx, ctx.N, ctx.E, ctx.RN
  {
    ctx.Public() && ctx.N.Abs() % 2 == 1 && ctx.len == ByteLen(ctx.N.Abs())
  }

  /** Lines 267-279: the padded block, with whatever nonzero bytes rand() gives. */
  method FillCryptBlock(input: array<byte>, ilen: nat, output: array<byte>, olen: nat) returns (ghost pad: seq<byte>)
    requires input != output && ilen <= input.Length && olen <= output.Length && olen >= ilen + 11
    modifies output
    ensures |pad| == olen - 3 - ilen && NonZero(pad)
    ensures output[..olen] == CryptBlock(pad, input[..ilen]) && output[olen..] == old(output[olen..])
  {
    var nb_pad := olen - 3 - ilen;
    ghost var rest := output[olen..];
    output[0] := 0;
    output[1] := RSA_CRYPT;
    pad := [];
    var p := 2;
    while nb_pad > 0
      invariant 0 <= nb_pad && |pad| == p - 2 && p + nb_pad == olen - 1 - ilen && NonZero(pad)
      invariant output[..p] == [0, RSA_CRYPT] + pad && output[olen..] == rest
    {
      var b: byte :| b != 0;
      PutByte(output, p, b);
      assert output[olen..] == output[p + 1..][olen - p - 1..];
      assert [0, RSA_CRYPT] + pad + [b] == [0, RSA_CRYPT] + (pad + [b]);
      pad := pad + [b];
      p := p + 1;
      nb_pad := nb_pad - 1;
    }
    PutByte(output, p, 0);
    assert output[olen..] == output[p + 1..][olen - p - 1..];
    p := p + 1;
    CopyBytes(output, p, input[..ilen]);
  }

  /** *p = b. */
  method PutByte(buf: array<byte>, at: nat, b: byte)
    requires at < buf.Length
    modifies buf
    ensures buf[..at + 1] == old(buf[..at]) + [b] && buf[at + 1..] == old(buf[at + 1..])
  {
    buf[at] := b;
  }

  /** memcpy( buf + at, s, |s| ). */
  method CopyBytes(buf: array<byte>, at: nat, s: seq<byte>)
    requires at + |s| <= buf.Length
    modifies buf
    ensures buf[..at + |s|] == old(buf[..at]) + s && buf[at + |s|..] == old(buf[at + |s|..])
  {
    var i := 0;
    ghost var head, rest := buf[..at], buf[at + |s|..];
    assert buf[..at] == head + s[..0];
    while i < |s|
      invariant 0 <= i <= |s| && buf[..at + i] == head + s[..i] && buf[at + |s|..] == rest
    {
      PutByte(buf, at + i, s[i]);
      assert head + s[..i] + [s[i]] == head + s[..i + 1];
      assert buf[at + |s|..] == buf[at + i + 1..][|s| - i - 1..];
      i := i + 1;
    }
  }

  /**
   * rsa_pkcs1_encrypt: the output is the RSA power of some correctly padded
   * block; the padding bytes are any the random source may give.
   */
  method Encrypt(ctx: RsaContext, input: array<byte>, ilen: nat, output: array<byte>, olen: nat)
    returns (ret: int, olen': nat, ghost pad: seq<byte>)
    requires PublicKey(ctx) && input != output && ilen <= input.Length && olen <= output.Length
    modifies ctx.RN, output
    ensures PublicKey(ctx)
    ensures ret == if olen != ctx.len || olen < ilen + 11 then ERR_RSA_BAD_INPUT_DATA else 0
    ensures ret == 0 ==> olen' == olen && |pad| == olen - 3 - ilen && 0 !in pad
    ensures ret == 0 ==>
      BytesVal(output[..olen]) == Pow(BytesVal([0, 2] + pad + [0] + input[..ilen]), ctx.E.Abs()) % ctx.N.Abs()
  {
    hide BytesVal, BitLen, Pow, Pow2, CryptBlock;
    pad := [];
    if olen != ctx.len || olen < ilen + 11 {
      return ERR_RSA_BAD_INPUT_DATA, olen, pad;
    }
    pad := FillCryptBlock(input, ilen, output, olen);
    ghost var block := output[..olen];
    BlockHead(pad, input[..ilen]);
    CryptBlockIs(pad, input[..ilen]);
    PaddedBelow(block, ctx.N.Abs(), olen);
    PowerFits(BytesVal(block), ctx.E.Abs(), ctx.N.Abs(), olen);
    ret, olen' := RsaPublic(ctx, output, olen, output, olen);
  }

  lemma CryptBlockIs(pad: seq<byte>, msg: seq<byte>)
    ensures CryptBlock(pad, msg) == [0, 2] + pad + [0] + msg && (NonZero(pad) <==> 0 !in pad)
  {}

  lemma BlockHead(pad: seq<byte>, msg: seq<byte>)
    ensures |CryptBlock(pad, msg)| == |pad| + |msg| + 3 && CryptBlock(pad, msg)[0] == 0
  {}

  /** A residue fits the modulus' own length. */
  lemma PowerFits(x: nat, e: nat, n: nat, len: nat)
    requires n > 0 && len == ByteLen(n)
    ensures Pow(x, e) % n < Pow2(8 * len)
  {
    hide Pow, Pow2, BitLen;
    ByteLenFits(n);
    DivMod(Pow(x, e), n);
  }

  /** rsa_public into a buffer of the modulus' length. */
  method OpenPublic(ctx: RsaContext, input: array<byte>, buf: array<byte>, len: nat) returns (ret: int)
    requires PublicKey(ctx) && len == ctx.len && len <= input.Length && len <= buf.Length && input != buf
    modifies ctx.RN, buf
    ensures PublicKey(ctx)
    ensures var x, n := BytesVal(input[..len]), ctx.N.Abs();
            && ret == (if x >= n then ERR_RSA_BAD_INPUT_DATA else 0)
            && (ret == 0 ==> buf[..len] == I2osp(Pow(x, ctx.E.Abs()) % n, len))
  {
    hide BytesVal, BitLen, Pow, Pow2, I2osp;
    ghost var x, n, e := BytesVal(input[..len]), ctx.N.Abs(), ctx.E.Abs();
    PowerFits(x, e, n, len);
    var l: nat;
    ret, l := RsaPublic(ctx, input, len, buf, len);
    if ret == 0 {
      I2ospUnique(buf[..len], Pow(x, e) % n);
    }
  }

  /** rsa_private into a buffer of the modulus' length. */
  method OpenPrivate(ctx: RsaContext, input: array<byte>, buf: array<byte>, len: nat) returns (ret: int)
    requires ctx.Key() && len == ctx.len && len <= input.Length && len <= buf.Length && input != buf
    modifies ctx.RP, ctx.RQ, buf
    ensures ctx.Key()
    ensures var x, n := BytesVal(input[..len]), ctx.N.Abs();
            && ret == (if x >= n then ERR_RSA_BAD_INPUT_DATA else 0)
            && (ret == 0 ==> buf[..len] == I2osp(Pow(x, ctx.D.Abs()) % n, len))
  {
    hide BytesVal, BitLen, Pow, Pow2, I2osp, KeyNumbers;
    ghost var x, n, d := BytesVal(input[..len]), ctx.N.Abs(), ctx.D.Abs();
    PowerFits(x, d, n, len);
    var l: nat;
    ret, l := RsaPrivate(ctx, input, len, buf, len);
    if ret == 0 {
      I2ospUnique(buf[..len], Pow(x, d) % n);
    }
  }

  // ---- decryption ----

  /** What rsa_pkcs1_decrypt returns for a decrypted block and room for olen bytes. */
  predicate Decrypted(block: seq<byte>, olen: nat, ret: int, msg: seq<byte>)
    requires |block| >= 2
  {
    match Unpad(block)
    case None => ret == ERR_RSA_INVALID_PADDING
    case Some(m) => if olen < |m| then ret == ERR_RSA_INVALID_PADDING else ret == 0 && msg == m
  }

  lemma DecryptedIs(block: seq<byte>, olen: nat, ret: int, out: seq<byte>)
    requires |block| >= 2 && Decrypted(block, olen, ret, out)
    ensures ret in {0, ERR_RSA_INVALID_PADDING}
    ensures forall msg: seq<byte> ::
      (ret == 0 && out == msg) <==>
        |msg| <= olen && exists pad: seq<byte> :: 0 !in pad && block == [0, 2] + pad + [0] + msg
  {
    hide Unpad;
    forall msg: seq<byte>
      ensures (ret == 0 && out == msg) <==>
        |msg| <= olen && exists pad: seq<byte> :: 0 !in pad && block == [0, 2] + pad + [0] + msg
    {
      UnpadIs(block, msg);
    }
  }

  /** Lines 300-317. */
  method ParseCrypt(buf: array<byte>, ilen: nat, output: array<byte>, olen: nat) returns (ret: int, olen': nat)
    requires buf != output && 16 <= ilen <= buf.Length && olen <= output.Length
    modifies output
    ensures olen' <= output.Length && Decrypted(buf[..ilen], olen, ret, output[..olen'])
    ensures ret != 0 ==> output[..] == old(output[..])
    ensures ret == 0 ==> output[olen'..] == old(output[olen'..])
  {
    ghost var s := buf[..ilen];
    olen' := olen;
    if buf[0] != 0 || buf[1] != RSA_CRYPT {
      return ERR_RSA_INVALID_PADDING, olen';
    }
    var p := 2;
    while buf[p] != 0
      invariant 2 <= p < ilen && forall k :: 2 <= k < p ==> s[k] != 0
      decreases ilen - p
    {
      if p >= ilen - 1 {
        assert FirstZero(s, 2).None?;
        return ERR_RSA_INVALID_PADDING, olen';
      }
      p := p + 1;
    }
    FirstZeroIs(s, 2, p);
    p := p + 1;
    assert buf[p..ilen] == s[p..];
    if olen < ilen - p {
      return ERR_RSA_INVALID_PADDING, olen';
    }
    olen' := ilen - p;
    CopyBytes(output, 0, buf[p..ilen]);
    assert output[..0] == [];
    return 0, olen';
  }

  /**
   * rsa_pkcs1_decrypt: it gives a message if and only if the opened block is
   * 00 02, octets other than zero, 00 and that message, and there is room for it.
   */
  method Decrypt(ctx: RsaContext, input: array<byte>, ilen: nat, output: array<byte>, olen: nat)
    returns (ret: int, olen': nat)
    requires ctx.Key() && ilen <= input.Length && olen <= output.Length
    modifies ctx.RP, ctx.RQ, output
    ensures ctx.Key() && olen' <= output.Length
    ensures ret != 0 ==> output[..] == old(output[..])
    ensures ret == 0 ==> output[olen'..] == old(output[olen'..])
    ensures var x, n := BytesVal(old(input[..ilen])), ctx.N.Abs();
            if ilen != ctx.len || ilen < 16 || ilen > 512 || x >= n then ret == ERR_RSA_BAD_INPUT_DATA
            else
              var block := I2osp(Pow(x, ctx.D.Abs()) % n, ilen);
              && ret in {0, ERR_RSA_INVALID_PADDING}
              && forall msg: seq<byte> ::
                   (ret == 0 && output[..olen'] == msg) <==>
                     |msg| <= olen && exists pad: seq<byte> :: 0 !in pad && block == [0, 2] + pad + [0] + msg
  {
    hide BytesVal, BitLen, Pow, Pow2, I2osp, Decrypted, KeyNumbers;
    if ilen != ctx.len || ilen < 16 || ilen > 512 {
      return ERR_RSA_BAD_INPUT_DATA, olen;
    }
    var buf := new byte[512];
    ret := OpenPrivate(ctx, input, buf, ilen);
    if ret != 0 {
      return ret, olen;
    }
    ret, olen' := ParseCrypt(buf, ilen, output, olen);
    DecryptedIs(buf[..ilen], olen, ret, output[..olen']);
  }

  /**
   * Decryption undoes encryption: exactly for keys of 16 to 512 bytes, every
   * message of at most len - 11 bytes comes back whole.
   */
  method EncryptThenDecrypt(ctx: RsaContext, msg: array<byte>, mlen: nat, cipher: array<byte>, plain: array<byte>)
    returns (ret: int, olen: nat)
    requires ctx.Key() && msg != cipher && msg != plain && cipher != plain
    requires mlen <= msg.Length && ctx.len <= cipher.Length && mlen <= plain.Length
    modifies ctx.RN, ctx.RP, ctx.RQ, cipher, plain
    ensures ret == 0 <==> mlen + 11 <= ctx.len && 16 <= ctx.len <= 512
    ensures ret == 0 ==> olen == mlen && plain[..olen] == msg[..mlen]
  {
    hide BytesVal, BitLen, Pow, Pow2, I2osp, KeyNumbers, CryptBlock, Unpad;
    KeyFacts(ctx);
    ghost var m := msg[..mlen];
    var clen: nat;
    ghost var pad;
    ret, clen, pad := Encrypt(ctx, msg, mlen, cipher, ctx.len);
    if ret != 0 {
      return ret, 0;
    }
    ghost var block, n := CryptBlock(pad, m), ctx.N.Abs();
    BlockHead(pad, m);
    PaddedBelow(block, n, |block|);
    PowerRoundTrip(BytesVal(block), n, ctx.E.Abs(), ctx.D.Abs(), ctx.P.Abs(), ctx.Q.Abs(),
                   ctx.DP.Abs(), ctx.DQ.Abs(), ctx.QP.Abs());
    PowerFits(BytesVal(block), ctx.E.Abs(), n, ctx.len);
    I2ospUnique(block, BytesVal(block));
    CryptBlockIs(pad, m);
    ret, olen := Decrypt(ctx, cipher, clen, plain, mlen);
  }

  // ---- signatures ----

  const ASN1_HASH_MDX: seq<byte> :=
    [0x30, 0x20, 0x30, 0x0C, 0x06, 0x08, 0x2A, 0x86, 0x48, 0x86, 0xF7, 0x0D, 0x02, 0x00, 0x05, 0x00, 0x04, 0x10]
  const ASN1_HASH_SHA1: seq<byte> :=
    [0x30, 0x21, 0x30, 0x09, 0x06, 0x05, 0x2B, 0x0E, 0x03, 0x02, 0x1A, 0x05, 0x00, 0x04, 0x14]

  /** The digest algorithm byte of the MD2/MD4/MD5 forms. */
  function MdByte(alg: int): byte {
    if alg == RSA_MD2 then 2 else if alg == RSA_MD4 then 4 else 5
  }

  predicate Known(alg: int) {
    alg in {RSA_RAW, RSA_MD2, RSA_MD4, RSA_MD5, RSA_SHA1}
  }

  /** Bytes the caller's hash buffer must hold. */
  function HashLen(alg: int, hashlen: nat): nat {
    if alg == RSA_RAW then hashlen else if alg == RSA_SHA1 then 20 else if Known(alg) then 16 else 0
  }

  /** The encoded digest that goes behind the padding. */
  function DigestInfo(alg: int, hash: seq<byte>): seq<byte> {
    if alg == RSA_RAW then hash
    else if alg == RSA_SHA1 then ASN1_HASH_SHA1 + hash
    else ASN1_HASH_MDX[13 := MdByte(alg)] + hash
  }

  /** 00 01 FF .. FF 00 T, of length len. */
  function SignBlock(info: seq<byte>, len: nat): (s: seq<byte>)
    requires |info| + 3 <= len
    ensures |s| == len && s[0] == 0
  {
    [0, RSA_SIGN] + Ones(len - 3 - |info|) + [0] + info
  }

  function Ones(n: nat): (s: seq<byte>)
    ensures |s| == n && forall k :: 0 <= k < n ==> s[k] == 0xFF
  {
    seq(n, k => 0xFF)
  }

  /** The signature blocks of a digest information: 00 01, FF octets to the length wanted, 00 and it. */
  lemma SignBlockIs(info: seq<byte>, len: nat, s: seq<byte>)
    requires |info| + 3 <= len
    ensures s == SignBlock(info, len) <==>
      |s| == len && exists pad: seq<byte> :: (forall b :: b in pad ==> b == 0xFF) && s == [0, 1] + pad + [0] + info
  {
    if s == SignBlock(info, len) {
      var pad := Ones(len - 3 - |info|);
      assert (forall b :: b in pad ==> b == 0xFF) && s == [0, 1] + pad + [0] + info;
    }
    if pad: seq<byte> :| (forall b :: b in pad ==> b == 0xFF) && s == [0, 1] + pad + [0] + info && |s| == len {
      assert pad == Ones(len - 3 - |info|) by {
        assert forall k :: 0 <= k < |pad| ==> pad[k] in pad;
      }
    }
  }

  /** The digest information of each form, octet by octet. */
  lemma DigestInfoIs(hash: seq<byte>)
    ensures DigestInfo(0, hash) == hash
    ensures forall alg: int {:trigger DigestInfo(alg, hash)} :: alg in {2, 3, 4} ==>
      DigestInfo(alg, hash) ==
        [0x30, 0x20, 0x30, 0x0C, 0x06, 0x08, 0x2A, 0x86, 0x48, 0x86, 0xF7, 0x0D, 0x02]
        + [if alg == 2 then 2 else if alg == 3 then 4 else 5] + [0x05, 0x00, 0x04, 0x10] + hash
    ensures DigestInfo(5, hash) ==
      [0x30, 0x21, 0x30, 0x09, 0x06, 0x05, 0x2B, 0x0E, 0x03, 0x02, 0x1A, 0x05, 0x00, 0x04, 0x14] + hash
  {
    assert ASN1_HASH_MDX == ASN1_HASH_MDX[..13] + [0] + [0x05, 0x00, 0x04, 0x10];
    forall alg: int | alg in {2, 3, 4}
      ensures DigestInfo(alg, hash) ==
        [0x30, 0x20, 0x30, 0x0C, 0x06, 0x08, 0x2A, 0x86, 0x48, 0x86, 0xF7, 0x0D, 0x02]
        + [if alg == 2 then 2 else if alg == 3 then 4 else 5] + [0x05, 0x00, 0x04, 0x10] + hash
    {
      var b: byte := if alg == 2 then 2 else if alg == 3 then 4 else 5;
      assert ASN1_HASH_MDX[13 := b] ==
        [0x30, 0x20, 0x30, 0x0C, 0x06, 0x08, 0x2A, 0x86, 0x48, 0x86, 0xF7, 0x0D, 0x02]
        + [b] + [0x05, 0x00, 0x04, 0x10];
    }
  }

  /** Lines 355-393. */
  method FillSignBlock(alg: int, hash: array<byte>, hashlen: nat, sig: array<byte>, siglen: nat, nb_pad: nat)
    requires hash != sig && Known(alg) && HashLen(alg, hashlen) <= hash.Length && siglen <= sig.Length
    requires nb_pad + 3 + |DigestInfo(alg, hash[..HashLen(alg, hashlen)])| == siglen
    modifies sig
    ensures sig[..siglen] == SignBlock(DigestInfo(alg, hash[..HashLen(alg, hashlen)]), siglen)
  {
    sig[0] := 0;
    sig[1] := RSA_SIGN;
    var p := 2;
    assert sig[..2] == [0, RSA_SIGN];
    CopyBytes(sig, p, Ones(nb_pad));
    p := p + nb_pad;
    PutByte(sig, p, 0);
    p := p + 1;
    WriteDigest(alg, hash, hashlen, sig, p);
  }

  /** Lines 365-393. */
  method WriteDigest(alg: int, hash: array<byte>, hashlen: nat, sig: array<byte>, p: nat)
    requires hash != sig && Known(alg) && HashLen(alg, hashlen) <= hash.Length
    requires p + |DigestInfo(alg, hash[..HashLen(alg, hashlen)])| <= sig.Length
    modifies sig
    ensures var info := DigestInfo(alg, hash[..HashLen(alg, hashlen)]); sig[..p + |info|] == old(sig[..p]) + info
  {
    if alg == RSA_RAW {
      CopyBytes(sig, p, hash[..hashlen]);
    } else if alg == RSA_SHA1 {
      CopyTwo(sig, p, ASN1_HASH_SHA1, hash[..20]);
    } else {
      PatchedCopy(sig, p, ASN1_HASH_MDX, hash[..16], 13, MdByte(alg));
    }
  }

  method CopyTwo(buf: array<byte>, at: nat, s: seq<byte>, t: seq<byte>)
    requires at + |s| + |t| <= buf.Length
    modifies buf
    ensures buf[..at + |s| + |t|] == old(buf[..at]) + (s + t)
  {
    CopyBytes(buf, at, s);
    CopyBytes(buf, at + |s|, t);
    assert old(buf[..at]) + s + t == old(buf[..at]) + (s + t);
  }

  /** Two copies, then one byte of the first overwritten. */
  method PatchedCopy(buf: array<byte>, at: nat, s: seq<byte>, t: seq<byte>, k: nat, b: byte)
    requires at + |s| + |t| <= buf.Length && k < |s|
    modifies buf
    ensures buf[..at + |s| + |t|] == old(buf[..at]) + (s[k := b] + t)
  {
    CopyTwo(buf, at, s, t);
    ghost var was := buf[..at + |s| + |t|];
    buf[at + k] := b;
    assert buf[..at + |s| + |t|] == was[at + k := b];
  }

  /** rsa_pkcs1_sign: the private power of the signature block. */
  method Sign(ctx: RsaContext, alg: int, hash: array<byte>, hashlen: nat, sig: array<byte>, siglen: nat)
    returns (ret: int)
    requires ctx.Key() && hash != sig && siglen <= sig.Length && HashLen(alg, hashlen) <= hash.Length
    modifies ctx.RP, ctx.RQ, sig
    ensures ctx.Key()
    ensures var info := DigestInfo(alg, hash[..HashLen(alg, hashlen)]);
            && ret == (if siglen == ctx.len && siglen >= 16 && alg in {0, 2, 3, 4, 5} && |info| + 11 <= siglen then 0
                       else ERR_RSA_BAD_INPUT_DATA)
            && (ret == 0 ==>
                  BytesVal(sig[..siglen]) == Pow(BytesVal(SignBlock(info, siglen)), ctx.D.Abs()) % ctx.N.Abs())
  {
    hide BytesVal, BitLen, Pow, Pow2, SignBlock, KeyNumbers;
    if siglen != ctx.len || siglen < 16 {
      return ERR_RSA_BAD_INPUT_DATA;
    }
    var nb_pad: int;
    if alg == RSA_RAW {
      nb_pad := siglen - 3 - hashlen;
    } else if alg == RSA_MD2 || alg == RSA_MD4 || alg == RSA_MD5 {
      nb_pad := siglen - 3 - 34;
    } else if alg == RSA_SHA1 {
      nb_pad := siglen - 3 - 35;
    } else {
      return ERR_RSA_BAD_INPUT_DATA;
    }
    if nb_pad < 8 {
      return ERR_RSA_BAD_INPUT_DATA;
    }
    FillSignBlock(alg, hash, hashlen, sig, siglen, nb_pad);
    ghost var block := sig[..siglen];
    PaddedBelow(block, ctx.N.Abs(), siglen);
    PowerFits(BytesVal(block), ctx.D.Abs(), ctx.N.Abs(), siglen);
    var len: nat;
    ret, len := RsaPrivate(ctx, sig, siglen, sig, siglen);
  }

  /** The digest information behind correct padding. */
  function Payload(s: seq<byte>): Option<seq<byte>>
    requires |s| >= 2
  {
    if s[0] != 0 || s[1] != RSA_SIGN then None
    else match FirstZero(s, 2)
         case None => None
         case Some(z) => if forall k :: 2 <= k < z ==> s[k] == 0xFF then Some(s[z + 1..]) else None
  }

  /**
   * What verification takes for a match: the digest information expected,
   * except that a raw hash of 34 bytes is compared with byte 13 zeroed, and
   * only after the MD prefix has been found in it.
   */
  predicate Matches(alg: int, hash: seq<byte>, info: seq<byte>) {
    if alg == RSA_RAW && |info| == 34 then
      |hash| == 34 && hash == info[13 := 0] && hash[..18] == ASN1_HASH_MDX
    else
      Known(alg) && info == DigestInfo(alg, hash)
  }

  lemma PayloadSignBlock(info: seq<byte>, len: nat)
    requires |info| + 3 <= len
    ensures Payload(SignBlock(info, len)) == Some(info)
  {
    var s := SignBlock(info, len);
    var z := len - 1 - |info|;
    FirstZeroIs(s, 2, z);
    assert s[z + 1..] == info;
  }

  lemma PayloadIs(s: seq<byte>, info: seq<byte>)
    requires |s| >= 2
    ensures Payload(s) == Some(info) <==>
      exists pad: seq<byte> :: (forall b :: b in pad ==> b == 0xFF) && s == [0, 1] + pad + [0] + info
  {
    if Payload(s) == Some(info) {
      var z := FirstZero(s, 2).value;
      var pad := s[2..z];
      assert forall k :: 0 <= k < |pad| ==> pad[k] == s[k + 2] == 0xFF;
      assert s == [0, 1] + pad + [0] + info;
    }
    if pad: seq<byte> :| (forall b :: b in pad ==> b == 0xFF) && s == [0, 1] + pad + [0] + info {
      SignBlockIs(info, |s|, s);
      PayloadSignBlock(info, |s|);
    }
  }

  /** Octet by octet: what is taken for the digest information of h. */
  lemma MatchesIs(alg: int, h: seq<byte>, info: seq<byte>)
    ensures Matches(alg, h, info) <==>
      if alg == 0 then
        if |info| == 34 then
          && h == info[13 := 0]
          && h[..18] == [0x30, 0x20, 0x30, 0x0C, 0x06, 0x08, 0x2A, 0x86, 0x48, 0x86, 0xF7, 0x0D, 0x02]
                        + [0, 0x05, 0x00, 0x04, 0x10]
        else info == h
      else if alg == 5 then
        info == [0x30, 0x21, 0x30, 0x09, 0x06, 0x05, 0x2B, 0x0E, 0x03, 0x02, 0x1A, 0x05, 0x00, 0x04, 0x14] + h
      else
        && alg in {2, 3, 4}
        && info == [0x30, 0x20, 0x30, 0x0C, 0x06, 0x08, 0x2A, 0x86, 0x48, 0x86, 0xF7, 0x0D, 0x02]
                   + [if alg == 2 then 2 else if alg == 3 then 4 else 5] + [0x05, 0x00, 0x04, 0x10] + h
  {
    hide DigestInfo;
    DigestInfoIs(h);
    assert ASN1_HASH_MDX ==
      [0x30, 0x20, 0x30, 0x0C, 0x06, 0x08, 0x2A, 0x86, 0x48, 0x86, 0xF7, 0x0D, 0x02] + [0, 0x05, 0x00, 0x04, 0x10];
  }

  lemma AcceptedIs(block: seq<byte>, alg: int, h: seq<byte>)
    requires |block| >= 2
    ensures Payload(block).Some? && Matches(alg, h, Payload(block).value) <==>
      exists pad: seq<byte>, info: seq<byte> ::
        (forall b :: b in pad ==> b == 0xFF) && block == [0, 1] + pad + [0] + info && Matches(alg, h, info)
  {
    hide Payload, Matches;
    if Payload(block).Some? && Matches(alg, h, Payload(block).value) {
      PayloadIs(block, Payload(block).value);
    }
    if pad: seq<byte>, info: seq<byte> :|
      (forall b :: b in pad ==> b == 0xFF) && block == [0, 1] + pad + [0] + info && Matches(alg, h, info) {
      PayloadIs(block, info);
    }
  }

  /** memcmp( buf + at, s, |s| ) == 0. */
  method SameBytes(buf: array<byte>, at: nat, s: seq<byte>) returns (same: bool)
    requires at + |s| <= buf.Length
    ensures same <==> buf[at..at + |s|] == s
  {
    var i := 0;
    while i < |s|
      invariant 0 <= i <= |s| && buf[at..at + i] == s[..i]
    {
      if buf[at + i] != s[i] {
        assert buf[at..at + |s|][i] != s[i];
        return false;
      }
      assert buf[at..at + i + 1] == buf[at..at + i] + [buf[at + i]];
      i := i + 1;
    }
    assert s[..|s|] == s;
    return true;
  }

  /** Lines 416-427: the payload's position, or -1 for bad padding. */
  method FindPayload(buf: array<byte>, siglen: nat) returns (p: int)
    requires 16 <= siglen <= buf.Length
    ensures if p < 0 then Payload(buf[..siglen]).None?
            else 3 <= p <= siglen && Payload(buf[..siglen]) == Some(buf[p..siglen])
  {
    ghost var s := buf[..siglen];
    if buf[0] != 0 || buf[1] != RSA_SIGN {
      return -1;
    }
    p := 2;
    while buf[p] != 0
      invariant 2 <= p < siglen && forall k :: 2 <= k < p ==> s[k] == 0xFF
      decreases siglen - p
    {
      if p >= siglen - 1 || buf[p] != 0xFF {
        BadPadding(s, p);
        return -1;
      }
      p := p + 1;
    }
    FirstZeroIs(s, 2, p);
    p := p + 1;
    assert s[p..] == buf[p..siglen];
  }

  lemma BadPadding(s: seq<byte>, p: nat)
    requires 2 <= p < |s| && s[p] != 0 && (p == |s| - 1 || s[p] != 0xFF)
    requires forall k :: 2 <= k < p ==> s[k] == 0xFF
    ensures Payload(s).None?
  {
    var z := FirstZero(s, 2);
    if z.Some? {
      assert p < z.value;
      assert s[p] != 0xFF;
    }
  }

  /** Bytes i to j of the part of b from p on. */
  lemma Part(b: seq<byte>, p: nat, q: nat, i: nat, j: nat)
    requires p <= q <= |b| && i <= j <= q - p
    ensures b[p..q][i..j] == b[p + i..p + j]
  {
    var s, t := b[p..q][i..j], b[p + i..p + j];
    assert |s| == |t| && forall k :: 0 <= k < |s| ==> s[k] == t[k];
  }

  lemma PartWith(b: seq<byte>, p: nat, q: nat, i: nat, v: byte)
    requires p + i < q <= |b|
    ensures b[p + i := v][p..q] == b[p..q][i := v]
  {
    var s, t := b[p + i := v][p..q], b[p..q][i := v];
    assert |s| == |t| && forall k :: 0 <= k < |s| ==> s[k] == t[k];
  }

  /**
   * The form of 34 octets: octet 13, which tells the digest, is taken out, and the
   * rest decides unless the octet is that of another digest than the one asked for.
   */
  method CompareMdx(alg: int, hash: array<byte>, buf: array<byte>, p: nat) returns (decided: bool, same: bool)
    requires hash != buf && p + 34 <= buf.Length && (alg in {RSA_MD2, RSA_MD4, RSA_MD5} ==> 16 <= hash.Length)
    modifies buf
    ensures buf[p..p + 34] == old(buf[p..p + 34])[13 := 0]
    ensures !decided ==> buf[p..p + 34][..18] == ASN1_HASH_MDX
    ensures !decided ==> !(alg in {RSA_MD2, RSA_MD4, RSA_MD5} && old(buf[p + 13]) == MdByte(alg))
    ensures decided && buf[p..p + 34][..18] != ASN1_HASH_MDX ==> !same
    ensures decided && buf[p..p + 34][..18] == ASN1_HASH_MDX ==>
      alg in {RSA_MD2, RSA_MD4, RSA_MD5} && old(buf[p + 13]) == MdByte(alg)
      && (same <==> old(buf[p..p + 34])[18..] == hash[..16])
  {
    ghost var b := buf[..];
    var c := buf[p + 13];
    buf[p + 13] := 0;
    assert buf[..] == b[p + 13 := 0];
    PartWith(b, p, p + 34, 13, 0);
    Part(buf[..], p, p + 34, 0, 18);
    Part(buf[..], p, p + 34, 18, 34);
    same := SameBytes(buf, p, ASN1_HASH_MDX);
    if !same {
      return true, false;
    }
    decided := (c == 2 && alg == RSA_MD2) || (c == 4 && alg == RSA_MD4) || (c == 5 && alg == RSA_MD5);
    if decided {
      same := SameBytes(buf, p + 18, hash[..16]);
      assert buf[p + 18..p + 34] == b[p..p + 34][13 := 0][18..34] == b[p..p + 34][18..];
    }
  }

  method CompareSha1(hash: array<byte>, buf: array<byte>, p: nat) returns (same: bool)
    requires p + 35 <= buf.Length && 20 <= hash.Length
    ensures same <==> buf[p..p + 35][..15] == ASN1_HASH_SHA1 && buf[p..p + 35][15..] == hash[..20]
  {
    Part(buf[..], p, p + 35, 0, 15);
    Part(buf[..], p, p + 35, 15, 35);
    same := SameBytes(buf, p, ASN1_HASH_SHA1);
    if same {
      same := SameBytes(buf, p + 15, hash[..20]);
    }
  }

  /** Lines 429-465. */
  method CompareDigest(alg: int, hash: array<byte>, hashlen: nat, buf: array<byte>, p: nat, siglen: nat)
    returns (ret: int)
    requires hash != buf && p <= siglen <= buf.Length && HashLen(alg, hashlen) <= hash.Length
    modifies buf
    ensures ret == 0 <==> Matches(alg, hash[..HashLen(alg, hashlen)], old(buf[p..siglen]))
    ensures ret in {0, ERR_RSA_INVALID_PADDING, ERR_RSA_VERIFY_FAILED}
  {
    ghost var info, h := buf[p..siglen], hash[..HashLen(alg, hashlen)];
    var len := siglen - p;
    var same: bool;
    if len == 34 {
      MdxPrefix(alg, h, info);
      var decided;
      decided, same := CompareMdx(alg, hash, buf, p);
      if decided {
        return if same then 0 else ERR_RSA_VERIFY_FAILED;
      }
    }
    if len == 35 && alg == RSA_SHA1 {
      same := CompareSha1(hash, buf, p);
      Sha1Prefix(h, info);
      return if same then 0 else ERR_RSA_VERIFY_FAILED;
    }
    if len == hashlen && alg == RSA_RAW {
      same := SameBytes(buf, p, hash[..hashlen]);
      assert buf[p..p + hashlen] == if len == 34 then info[13 := 0] else info;
      return if same then 0 else ERR_RSA_VERIFY_FAILED;
    }
    return ERR_RSA_INVALID_PADDING;
  }

  /** The 34-byte forms, split at byte 18 with byte 13 taken out. */
  lemma MdxPrefix(alg: int, h: seq<byte>, info: seq<byte>)
    requires |info| == 34 && (alg == RSA_SHA1 ==> |h| == 20)
    ensures Matches(alg, h, info) ==> info[13 := 0][..18] == ASN1_HASH_MDX
    ensures info[13 := 0][..18] == ASN1_HASH_MDX && alg in {RSA_MD2, RSA_MD4, RSA_MD5} ==>
              (Matches(alg, h, info) <==> info[13] == MdByte(alg) && info[18..] == h)
  {
    if alg in {RSA_MD2, RSA_MD4, RSA_MD5} {
      var d := DigestInfo(alg, h);
      assert d[18..] == h;
      if Matches(alg, h, info) {
        assert d[13 := 0][..18] == ASN1_HASH_MDX;
      }
      if info[13 := 0][..18] == ASN1_HASH_MDX && info[13] == MdByte(alg) && info[18..] == h {
        assert info[..18] == ASN1_HASH_MDX[13 := MdByte(alg)] by {
          assert info[..18] == info[13 := 0][..18][13 := info[13]];
        }
        assert info == info[..18] + info[18..];
      }
    }
  }

  lemma Sha1Prefix(h: seq<byte>, info: seq<byte>)
    requires |info| == 35
    ensures Matches(RSA_SHA1, h, info) <==> info[..15] == ASN1_HASH_SHA1 && info[15..] == h
  {
    assert info == info[..15] + info[15..];
    assert DigestInfo(RSA_SHA1, h)[15..] == h;
  }

  /**
   * rsa_pkcs1_verify: it accepts if and only if the opened block is 00 01, FF
   * octets, 00 and the digest information of the hash given.
   */
  method Verify(ctx: RsaContext, alg: int, hash: array<byte>, hashlen: nat, sig: array<byte>, siglen: nat)
    returns (ret: int)
    requires PublicKey(ctx) && siglen <= sig.Length && HashLen(alg, hashlen) <= hash.Length
    modifies ctx.RN
    ensures PublicKey(ctx)
    ensures var x, n := BytesVal(sig[..siglen]), ctx.N.Abs();
            var h := if alg == 0 then hash[..hashlen] else if alg == 5 then hash[..20]
                     else if alg in {2, 3, 4} then hash[..16] else [];
            var block := I2osp(Pow(x, ctx.E.Abs()) % n, siglen);
            ret == 0 <==>
              && siglen == ctx.len && 16 <= siglen <= 512 && x < n
              && exists pad: seq<byte>, info: seq<byte> ::
                   (forall b :: b in pad ==> b == 0xFF) && block == [0, 1] + pad + [0] + info && Matches(alg, h, info)
    ensures ret == ERR_RSA_BAD_INPUT_DATA <==>
              siglen != ctx.len || siglen < 16 || siglen > 512 || BytesVal(sig[..siglen]) >= ctx.N.Abs()
    ensures ret in {0, ERR_RSA_BAD_INPUT_DATA, ERR_RSA_INVALID_PADDING, ERR_RSA_VERIFY_FAILED}
  {
    hide BytesVal, BitLen, Pow, Pow2, I2osp, Payload, Matches;
    if siglen != ctx.len || siglen < 16 || siglen > 512 {
      return ERR_RSA_BAD_INPUT_DATA;
    }
    var buf := new byte[512];
    ret := OpenPublic(ctx, sig, buf, siglen);
    if ret != 0 {
      return;
    }
    AcceptedIs(buf[..siglen], alg, hash[..HashLen(alg, hashlen)]);
    var p := FindPayload(buf, siglen);
    if p < 0 {
      return ERR_RSA_INVALID_PADDING;
    }
    ret := CompareDigest(alg, hash, hashlen, buf, p, siglen);
  }

  /** Which hash a signature of the hash was is taken for. */
  lemma MatchesSigned(alg: int, h: seq<byte>, was: seq<byte>)
    requires alg in {0, 2, 3, 4, 5}
    ensures Matches(alg, h, DigestInfo(alg, was)) <==>
      if alg == 0 && |was| == 34 then h == was[13 := 0] && h[..18] == ASN1_HASH_MDX else h == was
  {
    if alg != 0 {
      var head := if alg == 5 then ASN1_HASH_SHA1 else ASN1_HASH_MDX[13 := MdByte(alg)];
      if DigestInfo(alg, h) == DigestInfo(alg, was) {
        assert h == DigestInfo(alg, h)[|head|..] == was;
      }
    }
  }

  lemma SignedIsAccepted(alg: int, h: seq<byte>, info: seq<byte>, len: nat)
    requires |info| + 3 <= len
    ensures var block := SignBlock(info, len);
      Matches(alg, h, info) <==>
        exists pad: seq<byte>, t: seq<byte> ::
          (forall b :: b in pad ==> b == 0xFF) && block == [0, 1] + pad + [0] + t && Matches(alg, h, t)
  {
    hide Payload, Matches, SignBlock;
    PayloadSignBlock(info, len);
    AcceptedIs(SignBlock(info, len), alg, h);
  }

  /** The public power opens what the private power closed. */
  lemma Reopened(ctx: RsaContext, block: seq<byte>)
    requires ctx.Key() && |block| == ctx.len && |block| > 0 && block[0] == 0
    ensures var n := ctx.N.Abs();
      n > 0 && Pow(BytesVal(block), ctx.D.Abs()) % n < n
      && I2osp(Pow(Pow(BytesVal(block), ctx.D.Abs()) % n, ctx.E.Abs()) % n, |block|) == block
  {
    hide BytesVal, BitLen, Pow, Pow2, I2osp, KeyNumbers;
    var n := ctx.N.Abs();
    KeyFacts(ctx);
    PaddedBelow(block, n, |block|);
    PowerRoundTrip(BytesVal(block), n, ctx.E.Abs(), ctx.D.Abs(), ctx.P.Abs(), ctx.Q.Abs(),
                   ctx.DP.Abs(), ctx.DQ.Abs(), ctx.QP.Abs());
    DivMod(Pow(BytesVal(block), ctx.D.Abs()), n);
    I2ospUnique(block, BytesVal(block));
  }

  /**
   * Of all hashes, verification accepts a signature for the one that was signed and
   * no other, exactly for keys of 16 to 512 bytes with room for it. Only when a raw
   * hash of 34 bytes was signed is it another: the hash with byte 13 zeroed, if
   * that starts with the MD prefix, and none if it does not.
   */
  method SignThenVerify(ctx: RsaContext, alg: int, signed: array<byte>, slen: nat, hash: array<byte>, hashlen: nat,
                        sig: array<byte>) returns (ret: int)
    requires ctx.Key() && signed != sig && hash != sig && ctx.len <= sig.Length
    requires HashLen(alg, slen) <= signed.Length && HashLen(alg, hashlen) <= hash.Length
    modifies ctx.RN, ctx.RP, ctx.RQ, sig
    ensures var was, h := signed[..HashLen(alg, slen)], hash[..HashLen(alg, hashlen)];
            ret == 0 <==>
              && alg in {0, 2, 3, 4, 5} && 16 <= ctx.len <= 512
              && (if alg == 0 then slen else if alg == 5 then 35 else 34) + 11 <= ctx.len
              && if alg == 0 && slen == 34 then h == was[13 := 0] && h[..18] == ASN1_HASH_MDX else h == was
  {
    hide BytesVal, BitLen, Pow, Pow2, I2osp, KeyNumbers, Payload, Matches, SignBlock;
    ghost var was, h := signed[..HashLen(alg, slen)], hash[..HashLen(alg, hashlen)];
    KeyFacts(ctx);
    ret := Sign(ctx, alg, signed, slen, sig, ctx.len);
    if ret != 0 {
      return;
    }
    ghost var info := DigestInfo(alg, was);
    Reopened(ctx, SignBlock(info, ctx.len));
    SignedIsAccepted(alg, h, info, ctx.len);
    MatchesSigned(alg, h, was);
    ret := Verify(ctx, alg, hash, hashlen, sig, ctx.len);
  }
}
