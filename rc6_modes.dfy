/**
 * The byte-level operations of `RC6Encryption` in `Server/Encryption/RC6.py`
 * as pure functions of the round keys `S` and the round count `R`: a block
 * given as bytes, ECB mode (NIST SP 800-38A, section 6.1) and CBC mode
 * (section 6.2) with PKCS#7 padding, including the exceptions each raises.
 */
module RC6Modes {
  import opened Bits
  import opened LittleEndian
  import opened Results
  import opened RC6Words
  import opened RC6Spec
  import opened Pkcs

  /** `encrypt(data)`/`decrypt(data)` on bytes: `a, b, c, d = get_blocks(data)[1]` needs exactly four words. */
  function UnpackBlock(data: seq<byte>): Result<Block>
  {
    var blocks :- GetBlocks(data);
    var ws := blocks.1;
    if |ws| != 4 then Failure(ValueError) else Success(Block(ws[0], ws[1], ws[2], ws[3]))
  }

  /** A block given as bytes is accepted exactly when it has 13 to 16 bytes, and gives the four little-endian words. */
  lemma UnpackBlockShape(data: seq<byte>)
    ensures UnpackBlock(data).Success? <==> 12 < |data| <= 16
    ensures UnpackBlock(data).Failure? ==> UnpackBlock(data).error == ValueError
    ensures |data| == 16 ==> UnpackBlock(data) == Success(EnumerateBlocks(data).value[0])
    ensures UnpackBlock(data).Success? ==> BlockBelow(UnpackBlock(data).value, WordModulus)
  {
    GroupsAgree(data);
  }

  /** The four words of a block, in the order `extend` appends them. */
  function WordsOf(blk: Block): seq<nat>
  {
    [blk.a, blk.b, blk.c, blk.d]
  }

  // ---------------------------------------------------------------------
  // ECB
  // ---------------------------------------------------------------------

  function EcbEncryptBlocks(S: seq<nat>, R: nat, bs: seq<Block>): (r: seq<Block>)
    requires |S| == 2 * R + 4
    ensures |r| == |bs|
  {
    seq(|bs|, k requires 0 <= k < |bs| => Encrypt(S, R, bs[k]))
  }

  function EcbDecryptBlocks(S: seq<nat>, R: nat, bs: seq<Block>): (r: seq<Block>)
    requires |S| == 2 * R + 4
    ensures |r| == |bs|
  {
    seq(|bs|, k requires 0 <= k < |bs| => Decrypt(S, R, bs[k]))
  }

  /** `data_encryption_ECB(data)`: pad to 16 bytes, encrypt every block, write the words back. */
  function EcbEncrypt(S: seq<nat>, R: nat, data: seq<byte>): Result<seq<byte>>
    requires |S| == 2 * R + 4
  {
    var padded :- Pad(data, 16);
    var bs :- EnumerateBlocks(padded);
    BlocksToData(Flatten(EcbEncryptBlocks(S, R, bs)))
  }

  /** `data_decryption_ECB(data)`: decrypt every block, write the words back, drop the padding. */
  function EcbDecrypt(S: seq<nat>, R: nat, data: seq<byte>): Result<seq<byte>>
    requires |S| == 2 * R + 4
  {
    var bs :- EnumerateBlocks(data);
    var plain :- BlocksToData(Flatten(EcbDecryptBlocks(S, R, bs)));
    Unpad(plain)
  }

  lemma EncryptAllBelow(S: seq<nat>, R: nat, bs: seq<Block>)
    requires |S| == 2 * R + 4
    ensures forall k :: 0 <= k < |bs| ==> BlockBelow(EcbEncryptBlocks(S, R, bs)[k], WordModulus)
    ensures AllBelow(Flatten(EcbEncryptBlocks(S, R, bs)), WordModulus)
  {
    forall k | 0 <= k < |bs|
      ensures BlockBelow(EcbEncryptBlocks(S, R, bs)[k], WordModulus)
    {
      EncryptBelow(S, R, bs[k]);
    }
    FlattenBelow(EcbEncryptBlocks(S, R, bs));
  }

  lemma DecryptAllBelow(S: seq<nat>, R: nat, bs: seq<Block>)
    requires |S| == 2 * R + 4
    ensures AllBelow(Flatten(EcbDecryptBlocks(S, R, bs)), WordModulus)
  {
    forall k | 0 <= k < |bs|
      ensures BlockBelow(EcbDecryptBlocks(S, R, bs)[k], WordModulus)
    {
      DecryptBelow(S, R, bs[k]);
    }
    FlattenBelow(EcbDecryptBlocks(S, R, bs));
  }

  /** Every block `enumerate_blocks` yields is four 32-bit words. */
  lemma EnumeratedBelow(data: seq<byte>)
    requires EnumerateBlocks(data).Success?
    ensures forall k :: 0 <= k < |EnumerateBlocks(data).value| ==> BlockBelow(EnumerateBlocks(data).value[k], WordModulus)
  {
    GroupsAgree(data);
  }

  /**
   * ECB encryption never fails, and its ciphertext is exactly as long as
   * the padded message: 16 bytes more than the message rounded down to a
   * multiple of 16.
   */
  lemma EcbEncryptLength(S: seq<nat>, R: nat, data: seq<byte>)
    requires |S| == 2 * R + 4
    ensures EcbEncrypt(S, R, data).Success?
    ensures |EcbEncrypt(S, R, data).value| == |Pad(data, 16).value| == 16 * (|data| / 16 + 1)
  {
    Pad16(data);
    PadShape(data, 16);
    var padded := Pad(data, 16).value;
    EnumerateWhole(padded);
    var bs := EnumerateBlocks(padded).value;
    EncryptAllBelow(S, R, bs);
  }

  /** ECB decryption fails with `ValueError` exactly when the data does not split into whole blocks of four words. */
  lemma EcbDecryptOutcome(S: seq<nat>, R: nat, data: seq<byte>)
    requires |S| == 2 * R + 4
    ensures EcbDecrypt(S, R, data).Success? <==> |data| > 0 && GroupCount(|data|) % 4 == 0
    ensures EcbDecrypt(S, R, data).Failure? ==> EcbDecrypt(S, R, data).error == ValueError
  {
    if EnumerateBlocks(data).Success? {
      var bs := EnumerateBlocks(data).value;
      DecryptAllBelow(S, R, bs);
    }
  }

  /** `data_decryption_ECB(data_encryption_ECB(m)) == m`. */
  lemma EcbRoundTrip(S: seq<nat>, R: nat, data: seq<byte>)
    requires |S| == 2 * R + 4
    ensures EcbEncrypt(S, R, data).Success?
    ensures EcbDecrypt(S, R, EcbEncrypt(S, R, data).value) == Success(data)
  {
    Pad16(data);
    var padded := Pad(data, 16).value;
    EnumerateWhole(padded);
    EnumeratedBelow(padded);
    var bs := EnumerateBlocks(padded).value;
    var es := EcbEncryptBlocks(S, R, bs);
    EncryptAllBelow(S, R, bs);
    EcbEncryptLength(S, R, data);
    assert EcbEncrypt(S, R, data).value == WordsToBytes(Flatten(es));
    EnumerateWordsToBytes(es);
    forall k | 0 <= k < |bs|
      ensures EcbDecryptBlocks(S, R, es)[k] == bs[k]
    {
      DecryptEncrypt(S, R, bs[k]);
    }
    assert EcbDecryptBlocks(S, R, es) == bs;
    UnpadPad(data, 16);
  }

  /** The words of bytes `16k .. 16k+15` are words `4k .. 4k+3` of the whole. */
  lemma GroupsSlice(data: seq<byte>, k: nat)
    requires 16 * k + 16 <= |data|
    ensures Groups(data[16 * k .. 16 * k + 16]) == Groups(data)[4 * k .. 4 * k + 4]
  {
    hide FromLE;
    var chunk := data[16 * k .. 16 * k + 16];
    assert GroupCount(16) == 4;
    GroupCountBounds(|data|, 4 * k + 3);
    forall m | 0 <= m < 4
      ensures Groups(chunk)[m] == Groups(data)[4 * k + m]
    {
      var lo := 16 * k + 4 * m;
      assert 4 * (4 * k + m) == lo && lo + 4 <= |data|;
      assert Group(chunk, m) == chunk[4 * m .. 4 * m + 4];
      SliceOfSlice(data, 16 * k, 16 * k + 16, 4 * m, 4 * m + 4);
      assert Group(data, 4 * k + m) == data[lo .. lo + 4];
    }
  }

  /** Bytes `16k .. 16k+15` of the written words are the bytes of words `4k .. 4k+3`. */
  lemma WordsToBytesQuad(ws: seq<nat>, k: nat)
    requires AllBelow(ws, WordModulus) && 4 * k + 4 <= |ws|
    ensures AllBelow(ws[4 * k .. 4 * k + 4], WordModulus)
    ensures WordsToBytes(ws)[16 * k .. 16 * k + 16] == WordsToBytes(ws[4 * k .. 4 * k + 4])
  {
    hide WordsToBytes, ToLE, Pow2, AllBelow;
    var x, r := ws[0 .. 4 * k], ws[4 * k .. |ws|];
    var y, z := r[0..4], r[4..|r|];
    assert ws == x + r;
    assert r == y + z;
    assert ws == x + (y + z);
    assert y == ws[4 * k .. 4 * k + 4] by {
      forall q | 0 <= q < 4
        ensures y[q] == ws[4 * k .. 4 * k + 4][q]
      {
        assert y[q] == ws[4 * k + q];
      }
    }
    AllBelowSlice(ws, WordModulus, 0, 4 * k);
    AllBelowSlice(ws, WordModulus, 4 * k, |ws|);
    AllBelowSlice(r, WordModulus, 0, 4);
    AllBelowSlice(r, WordModulus, 4, |r|);
    WordsToBytesMiddle(x, y, z);
  }

  /** The bytes of the middle part of `x + y + z` are the bytes of `y`. */
  lemma WordsToBytesMiddle(x: seq<nat>, y: seq<nat>, z: seq<nat>)
    requires AllBelow(x, WordModulus) && AllBelow(y, WordModulus) && AllBelow(z, WordModulus)
    ensures AllBelow(x + y + z, WordModulus)
    ensures WordsToBytes(x + (y + z))[4 * |x| .. 4 * |x| + 4 * |y|] == WordsToBytes(y)
  {
    hide WordsToBytes, ToLE, Pow2, AllBelow;
    WordsToBytesAppend(y, z);
    WordsToBytesAppend(x, y + z);
    var bx, bm, bz := WordsToBytes(x), WordsToBytes(y), WordsToBytes(z);
    assert WordsToBytes(x + (y + z)) == bx + (bm + bz);
    assert (bx + (bm + bz))[4 * |x| .. 4 * |x| + 4 * |y|] == bm;
    assert x + y + z == x + (y + z);
  }

  /** Block `k` that `enumerate_blocks` yields is bytes `16k .. 16k+15` unpacked on their own. */
  lemma EnumerateAt(data: seq<byte>, k: nat)
    requires |data| > 0 && |data| % 16 == 0 && 16 * k + 16 <= |data|
    ensures EnumerateBlocks(data).Success? && k < |EnumerateBlocks(data).value|
    ensures UnpackBlock(data[16 * k .. 16 * k + 16]) == Success(EnumerateBlocks(data).value[k])
  {
    var chunk := data[16 * k .. 16 * k + 16];
    UnpackBlockShape(chunk);
    GroupsSlice(data, k);
    EnumerateWhole(data);
  }

  /** Words `4k .. 4k+3` of the flattened blocks are block `k`. */
  lemma FlattenQuad(bs: seq<Block>, k: nat)
    requires k < |bs|
    ensures Flatten(bs)[4 * k .. 4 * k + 4] == WordsOf(bs[k])
  {
    hide Flatten;
    FlattenAt(bs, k);
    var q := Flatten(bs)[4 * k .. 4 * k + 4];
    assert q[0] == bs[k].a && q[1] == bs[k].b && q[2] == bs[k].c && q[3] == bs[k].d;
  }

  /**
   * ECB is blockwise: ciphertext block `k` is `encrypt` applied to padded
   * plaintext block `k` alone, written back as bytes, so equal plaintext
   * blocks give equal ciphertext blocks.
   */
  lemma EcbBlockwise(S: seq<nat>, R: nat, data: seq<byte>, k: nat)
    requires |S| == 2 * R + 4 && k <= |data| / 16
    ensures Pad(data, 16).Success? && EcbEncrypt(S, R, data).Success?
    ensures |EcbEncrypt(S, R, data).value| == |Pad(data, 16).value| >= 16 * k + 16
    ensures UnpackBlock(Pad(data, 16).value[16 * k .. 16 * k + 16]).Success?
    ensures var blk := Encrypt(S, R, UnpackBlock(Pad(data, 16).value[16 * k .. 16 * k + 16]).value);
      && AllBelow(WordsOf(blk), WordModulus)
      && EcbEncrypt(S, R, data).value[16 * k .. 16 * k + 16] == WordsToBytes(WordsOf(blk))
  {
    hide Encrypt, WordsToBytes, Pad, UnpackBlock, Flatten, EnumerateBlocks;
    EcbEncryptLength(S, R, data);
    var padded := Pad(data, 16).value;
    PadShape(data, 16);
    EnumerateAt(padded, k);
    var bs := EnumerateBlocks(padded).value;
    var es := EcbEncryptBlocks(S, R, bs);
    EncryptAllBelow(S, R, bs);
    var ws := Flatten(es);
    FlattenQuad(es, k);
    WordsToBytesQuad(ws, k);
  }

  /** A 16-byte block is the bytes of the four words it unpacks to. */
  lemma UnpackBlockBytes(data: seq<byte>)
    requires |data| == 16
    ensures UnpackBlock(data).Success? && AllBelow(WordsOf(UnpackBlock(data).value), WordModulus)
    ensures WordsToBytes(WordsOf(UnpackBlock(data).value)) == data
  {
    UnpackBlockShape(data);
    var ws := Groups(data);
    assert GroupCount(16) == 4;
    assert WordsOf(UnpackBlock(data).value) == ws;
    WordsToBytesOfGroups(data);
  }

  /**
   * In ECB, ciphertext block `k` depends on padded plaintext block `k` and
   * on nothing else: two messages give the same ciphertext block `k` exactly
   * when their padded block `k` is the same, so a changed plaintext block
   * changes its ciphertext block.
   */
  lemma EcbBlockDependence(S: seq<nat>, R: nat, m1: seq<byte>, m2: seq<byte>, k: nat)
    requires |S| == 2 * R + 4 && k <= |m1| / 16 && k <= |m2| / 16
    ensures Pad(m1, 16).Success? && EcbEncrypt(S, R, m1).Success?
    ensures Pad(m2, 16).Success? && EcbEncrypt(S, R, m2).Success?
    ensures |Pad(m1, 16).value| == |EcbEncrypt(S, R, m1).value| >= 16 * k + 16
    ensures |Pad(m2, 16).value| == |EcbEncrypt(S, R, m2).value| >= 16 * k + 16
    ensures Pad(m1, 16).value[16 * k .. 16 * k + 16] == Pad(m2, 16).value[16 * k .. 16 * k + 16]
        <==> EcbEncrypt(S, R, m1).value[16 * k .. 16 * k + 16] == EcbEncrypt(S, R, m2).value[16 * k .. 16 * k + 16]
  {
    hide Encrypt, WordsToBytes, Pad, UnpackBlock, EcbEncrypt;
    EcbBlockwise(S, R, m1, k);
    EcbBlockwise(S, R, m2, k);
    var p1 := Pad(m1, 16).value[16 * k .. 16 * k + 16];
    var p2 := Pad(m2, 16).value[16 * k .. 16 * k + 16];
    var u1, u2 := UnpackBlock(p1).value, UnpackBlock(p2).value;
    UnpackBlockShape(p1);
    UnpackBlockShape(p2);
    UnpackBlockBytes(p1);
    UnpackBlockBytes(p2);
    var e1, e2 := Encrypt(S, R, u1), Encrypt(S, R, u2);
    if WordsToBytes(WordsOf(e1)) == WordsToBytes(WordsOf(e2)) {
      GroupsOfWordsToBytes(WordsOf(e1));
      GroupsOfWordsToBytes(WordsOf(e2));
      assert WordsOf(e1) == WordsOf(e2);
      assert e1 == e2 by {
        assert e1.a == WordsOf(e1)[0] && e1.b == WordsOf(e1)[1] && e1.c == WordsOf(e1)[2] && e1.d == WordsOf(e1)[3];
      }
      EncryptInjective(S, R, u1, u2);
    }
  }

  // ---------------------------------------------------------------------
  // CBC
  // ---------------------------------------------------------------------

  /** The word-wise XOR of two blocks. */
  function XorBlock(x: Block, y: Block): Block
  {
    Block(Xor(x.a, y.a), Xor(x.b, y.b), Xor(x.c, y.c), Xor(x.d, y.d))
  }

  lemma XorBlockProps(x: Block, y: Block)
    requires BlockBelow(x, WordModulus) && BlockBelow(y, WordModulus)
    ensures BlockBelow(XorBlock(x, y), WordModulus)
    ensures XorBlock(XorBlock(x, y), y) == x
  {
    hide Xor;
    Modulus();
    XorBound(x.a, y.a, W);
    XorBound(x.b, y.b, W);
    XorBound(x.c, y.c, W);
    XorBound(x.d, y.d, W);
    XorCancel(x.a, y.a);
    XorCancel(x.b, y.b);
    XorCancel(x.c, y.c);
    XorCancel(x.d, y.d);
  }

  /** XOR with a fixed block is one-to-one, on either side. */
  lemma XorBlockInjective(x: Block, y: Block, z: Block)
    ensures XorBlock(x, z) == XorBlock(y, z) <==> x == y
    ensures XorBlock(z, x) == XorBlock(z, y) <==> x == y
  {
    hide Xor;
    XorCancel(x.a, z.a); XorCancel(x.b, z.b); XorCancel(x.c, z.c); XorCancel(x.d, z.d);
    XorCancel(y.a, z.a); XorCancel(y.b, z.b); XorCancel(y.c, z.c); XorCancel(y.d, z.d);
    XorComm(x.a, z.a); XorComm(x.b, z.b); XorComm(x.c, z.c); XorComm(x.d, z.d);
    XorComm(y.a, z.a); XorComm(y.b, z.b); XorComm(y.c, z.c); XorComm(y.d, z.d);
  }

  /** `bytes(iv[i % len(iv)] for i in range(16))`; an empty IV raises `ZeroDivisionError`. */
  function ExpandIV(iv: seq<byte>): Result<seq<byte>>
  {
    if |iv| == 0 then Failure(ZeroDivisionError) else Success(seq(16, i => iv[i % |iv|]))
  }

  /**
   * A non-empty IV becomes 16 bytes repeating it; one of 16 bytes or more
   * is cut to its first 16; and the IV encryption returns is its own
   * expansion, so handing it back in changes nothing.
   */
  lemma ExpandIVShape(iv: seq<byte>)
    ensures ExpandIV(iv).Success? <==> |iv| > 0
    ensures ExpandIV(iv).Failure? ==> ExpandIV(iv).error == ZeroDivisionError
    ensures ExpandIV(iv).Success? ==>
      (|ExpandIV(iv).value| == 16 && forall i :: 0 <= i < 16 ==> ExpandIV(iv).value[i] == iv[i % |iv|])
    ensures |iv| >= 16 ==> ExpandIV(iv) == Success(iv[..16])
    ensures ExpandIV(iv).Success? ==> ExpandIV(ExpandIV(iv).value) == ExpandIV(iv)
  {
    if |iv| > 0 {
      var e := ExpandIV(iv).value;
      if |iv| >= 16 {
        forall i | 0 <= i < 16
          ensures e[i] == iv[i]
        {
          DivModUnique(i, |iv|, 0, i);
        }
        assert e == iv[..16];
      }
      forall i | 0 <= i < 16
        ensures ExpandIV(e).value[i] == e[i]
      {
        DivModUnique(i, 16, 0, i);
      }
      assert ExpandIV(e).value == e;
    }
  }

  /** `iv[0] .. iv[3]` on the IV's words: fewer than four raise `IndexError`. */
  function IvBlock(ws: seq<nat>): Result<Block>
  {
    if |ws| < 4 then Failure(IndexError) else Success(Block(ws[0], ws[1], ws[2], ws[3]))
  }

  /** The block a CBC block is XORed with: the last ciphertext block so far, or the IV for the first. */
  function Chain(iv: Block, cs: seq<Block>): Block
  {
    if |cs| == 0 then iv else cs[|cs| - 1]
  }

  /** The encrypted blocks of CBC: each plaintext block XORed with the chain value, then encrypted. */
  function CbcEncryptBlocks(S: seq<nat>, R: nat, iv: Block, bs: seq<Block>): (r: seq<Block>)
    requires |S| == 2 * R + 4
    ensures |r| == |bs|
  {
    if |bs| == 0 then []
    else
      var prev := CbcEncryptBlocks(S, R, iv, bs[..|bs| - 1]);
      prev + [Encrypt(S, R, XorBlock(bs[|bs| - 1], Chain(iv, prev)))]
  }

  /** The decrypted blocks of CBC: each ciphertext block decrypted, then XORed with the one before it (or the IV). */
  function CbcDecryptBlocks(S: seq<nat>, R: nat, iv: Block, cs: seq<Block>): (r: seq<Block>)
    requires |S| == 2 * R + 4
    ensures |r| == |cs|
  {
    seq(|cs|, k requires 0 <= k < |cs| => XorBlock(Decrypt(S, R, cs[k]), Chain(iv, cs[..k])))
  }

  /**
   * `data_encryption_CBC(data, iv)`: expand the IV, pad, chain the blocks;
   * returns the expanded IV with the ciphertext.
   */
  function CbcEncrypt(S: seq<nat>, R: nat, data: seq<byte>, iv: seq<byte>): Result<(seq<byte>, seq<byte>)>
    requires |S| == 2 * R + 4
  {
    var ivBytes :- ExpandIV(iv);
    var ivBlocks :- GetBlocks(ivBytes);
    var padded :- Pad(data, 16);
    var bs :- EnumerateBlocks(padded);
    var ivBlock :- IvBlock(ivBlocks.1);
    var cipher :- BlocksToData(Flatten(CbcEncryptBlocks(S, R, ivBlock, bs)));
    Success((ivBytes, cipher))
  }

  /**
   * `data_decryption_CBC(data, iv)`. `enumerate_blocks` is a generator, so
   * the exceptions come in the order the loop meets them: the IV's
   * `get_blocks`, then the data's `get_blocks` and the first block's
   * unpacking (`ValueError`), then `iv[3]` on a short IV (`IndexError`),
   * then a later incomplete block (`ValueError`).
   */
  function CbcDecrypt(S: seq<nat>, R: nat, data: seq<byte>, iv: seq<byte>): Result<seq<byte>>
    requires |S| == 2 * R + 4
  {
    var ivBlocks :- GetBlocks(iv);
    if |data| == 0 || GroupCount(|data|) < 4 then Failure(ValueError)
    else
      var ivBlock :- IvBlock(ivBlocks.1);
      var cs :- EnumerateBlocks(data);
      var plain :- BlocksToData(Flatten(CbcDecryptBlocks(S, R, ivBlock, cs)));
      Unpad(plain)
  }

  lemma {:induction false} CbcEncryptPrefix(S: seq<nat>, R: nat, iv: Block, bs: seq<Block>, k: nat)
    requires |S| == 2 * R + 4 && k <= |bs|
    ensures CbcEncryptBlocks(S, R, iv, bs)[..k] == CbcEncryptBlocks(S, R, iv, bs[..k])
    decreases |bs|
  {
    hide Encrypt, XorBlock, Chain;
    if k < |bs| {
      var n := |bs| - 1;
      var prev := CbcEncryptBlocks(S, R, iv, bs[..n]);
      CbcEncryptPrefix(S, R, iv, bs[..n], k);
      assert bs[..n][..k] == bs[..k];
      assert prev[..k] == CbcEncryptBlocks(S, R, iv, bs[..k]);
      assert CbcEncryptBlocks(S, R, iv, bs)[..n] == prev;
      assert CbcEncryptBlocks(S, R, iv, bs)[..k] == prev[..k];
    } else {
      assert bs[..k] == bs;
    }
  }

  /** Block `k` of CBC ciphertext is the encryption of plaintext block `k` XORed with the ciphertext block before it (the IV for the first). */
  lemma CbcEncryptAt(S: seq<nat>, R: nat, iv: Block, bs: seq<Block>, k: nat)
    requires |S| == 2 * R + 4 && k < |bs|
    ensures var cs := CbcEncryptBlocks(S, R, iv, bs);
      cs[k] == Encrypt(S, R, XorBlock(bs[k], Chain(iv, cs[..k])))
  {
    var cs := CbcEncryptBlocks(S, R, iv, bs);
    CbcEncryptPrefix(S, R, iv, bs, k + 1);
    CbcEncryptPrefix(S, R, iv, bs, k);
    assert bs[..k + 1][..k] == bs[..k];
    assert cs[..k + 1][k] == cs[k];
  }

  lemma CbcEncryptBelow(S: seq<nat>, R: nat, iv: Block, bs: seq<Block>)
    requires |S| == 2 * R + 4
    ensures forall k :: 0 <= k < |bs| ==> BlockBelow(CbcEncryptBlocks(S, R, iv, bs)[k], WordModulus)
    ensures AllBelow(Flatten(CbcEncryptBlocks(S, R, iv, bs)), WordModulus)
  {
    var cs := CbcEncryptBlocks(S, R, iv, bs);
    forall k | 0 <= k < |bs|
      ensures BlockBelow(cs[k], WordModulus)
    {
      CbcEncryptAt(S, R, iv, bs, k);
      EncryptBelow(S, R, XorBlock(bs[k], Chain(iv, cs[..k])));
    }
    FlattenBelow(cs);
  }

  /** CBC decryption of the CBC encryption of 32-bit blocks under a 32-bit IV block gives the blocks back. */
  lemma CbcBlocksRoundTrip(S: seq<nat>, R: nat, iv: Block, bs: seq<Block>)
    requires |S| == 2 * R + 4 && BlockBelow(iv, WordModulus)
    requires forall k :: 0 <= k < |bs| ==> BlockBelow(bs[k], WordModulus)
    ensures CbcDecryptBlocks(S, R, iv, CbcEncryptBlocks(S, R, iv, bs)) == bs
  {
    hide Encrypt, Decrypt, XorBlock;
    var cs := CbcEncryptBlocks(S, R, iv, bs);
    CbcEncryptBelow(S, R, iv, bs);
    forall k | 0 <= k < |bs|
      ensures CbcDecryptBlocks(S, R, iv, cs)[k] == bs[k]
    {
      var ch := Chain(iv, cs[..k]);
      assert BlockBelow(ch, WordModulus);
      CbcEncryptAt(S, R, iv, bs, k);
      XorBlockProps(bs[k], ch);
      DecryptEncrypt(S, R, XorBlock(bs[k], ch));
    }
  }

  /**
   * CBC ciphertext blocks of two messages that differ only in block `k`:
   * from block `k` on, each differs, because the changed block reaches
   * every later block through the chain.
   */
  lemma {:induction false} CbcBlockDiffers(S: seq<nat>, R: nat, iv: Block, bs1: seq<Block>, bs2: seq<Block>, k: nat, j: nat)
    requires |S| == 2 * R + 4 && BlockBelow(iv, WordModulus)
    requires |bs1| == |bs2| && k <= j < |bs1| && bs1[k] != bs2[k]
    requires forall i :: 0 <= i < |bs1| ==> BlockBelow(bs1[i], WordModulus) && BlockBelow(bs2[i], WordModulus)
    requires forall i :: 0 <= i < |bs1| && i != k ==> bs1[i] == bs2[i]
    ensures CbcEncryptBlocks(S, R, iv, bs1)[j] != CbcEncryptBlocks(S, R, iv, bs2)[j]
    decreases j
  {
    hide Encrypt, XorBlock, CbcEncryptBlocks;
    var c1, c2 := CbcEncryptBlocks(S, R, iv, bs1), CbcEncryptBlocks(S, R, iv, bs2);
    CbcEncryptBelow(S, R, iv, bs1);
    CbcEncryptBelow(S, R, iv, bs2);
    CbcEncryptAt(S, R, iv, bs1, j);
    CbcEncryptAt(S, R, iv, bs2, j);
    var ch1, ch2 := Chain(iv, c1[..j]), Chain(iv, c2[..j]);
    assert BlockBelow(ch1, WordModulus) && BlockBelow(ch2, WordModulus);
    XorBlockProps(bs1[j], ch1);
    XorBlockProps(bs2[j], ch2);
    if j == k {
      CbcEncryptPrefix(S, R, iv, bs1, k);
      CbcEncryptPrefix(S, R, iv, bs2, k);
      assert bs1[..k] == bs2[..k];
      assert ch1 == ch2;
      XorBlockInjective(bs1[k], bs2[k], ch1);
    } else {
      CbcBlockDiffers(S, R, iv, bs1, bs2, k, j - 1);
      assert ch1 == c1[j - 1] && ch2 == c2[j - 1];
      assert bs1[j] == bs2[j];
      XorBlockInjective(ch1, ch2, bs1[j]);
    }
    EncryptInjective(S, R, XorBlock(bs1[j], ch1), XorBlock(bs2[j], ch2));
  }

  /**
   * CBC's propagation of a change: when two messages differ only in block
   * `k`, their ciphertexts agree before block `k` and differ in block `k`
   * and in every block after it.
   */
  lemma CbcAvalanche(S: seq<nat>, R: nat, iv: Block, bs1: seq<Block>, bs2: seq<Block>, k: nat)
    requires |S| == 2 * R + 4 && BlockBelow(iv, WordModulus)
    requires |bs1| == |bs2| && k < |bs1|
    requires forall i :: 0 <= i < |bs1| ==> BlockBelow(bs1[i], WordModulus) && BlockBelow(bs2[i], WordModulus)
    requires forall i :: 0 <= i < |bs1| && i != k ==> bs1[i] == bs2[i]
    ensures forall j :: 0 <= j < k ==> CbcEncryptBlocks(S, R, iv, bs1)[j] == CbcEncryptBlocks(S, R, iv, bs2)[j]
    ensures bs1[k] != bs2[k] ==>
      forall j :: k <= j < |bs1| ==> CbcEncryptBlocks(S, R, iv, bs1)[j] != CbcEncryptBlocks(S, R, iv, bs2)[j]
  {
    hide CbcEncryptBlocks;
    var c1, c2 := CbcEncryptBlocks(S, R, iv, bs1), CbcEncryptBlocks(S, R, iv, bs2);
    CbcEncryptPrefix(S, R, iv, bs1, k);
    CbcEncryptPrefix(S, R, iv, bs2, k);
    assert bs1[..k] == bs2[..k];
    assert c1[..k] == c2[..k];
    forall j | 0 <= j < k
      ensures c1[j] == c2[j]
    {
      assert c1[j] == c1[..k][j];
    }
    if bs1[k] != bs2[k] {
      forall j | k <= j < |bs1|
        ensures c1[j] != c2[j]
      {
        CbcBlockDiffers(S, R, iv, bs1, bs2, k, j);
      }
    }
  }

  /** The 16-byte expanded IV always gives four 32-bit IV words. */
  lemma IvWords(ivBytes: seq<byte>)
    requires |ivBytes| == 16
    ensures GetBlocks(ivBytes).Success?
    ensures IvBlock(GetBlocks(ivBytes).value.1).Success?
    ensures BlockBelow(IvBlock(GetBlocks(ivBytes).value.1).value, WordModulus)
  {
    GroupsAgree(ivBytes);
  }

  /**
   * CBC encryption fails only on an empty IV (`ZeroDivisionError`); it
   * returns the expanded IV and a ciphertext as long as the padded message.
   */
  lemma CbcEncryptOutcome(S: seq<nat>, R: nat, data: seq<byte>, iv: seq<byte>)
    requires |S| == 2 * R + 4
    ensures CbcEncrypt(S, R, data, iv).Success? <==> |iv| > 0
    ensures CbcEncrypt(S, R, data, iv).Failure? ==> CbcEncrypt(S, R, data, iv).error == ZeroDivisionError
    ensures CbcEncrypt(S, R, data, iv).Success? ==>
      && CbcEncrypt(S, R, data, iv).value.0 == ExpandIV(iv).value
      && |CbcEncrypt(S, R, data, iv).value.1| == |Pad(data, 16).value| == 16 * (|data| / 16 + 1)
  {
    if |iv| > 0 {
      ExpandIVShape(iv);
      IvWords(ExpandIV(iv).value);
      Pad16(data);
      PadShape(data, 16);
      var padded := Pad(data, 16).value;
      EnumerateWhole(padded);
      var ivBlock := IvBlock(GetBlocks(ExpandIV(iv).value).value.1).value;
      CbcEncryptBelow(S, R, ivBlock, EnumerateBlocks(padded).value);
    }
  }

  /**
   * CBC decryption: an empty IV or data that is not whole blocks of four
   * words raise `ValueError`, except that an IV of fewer than 13 bytes
   * raises `IndexError` as soon as there is a first block.
   */
  lemma CbcDecryptBelow(S: seq<nat>, R: nat, iv: Block, cs: seq<Block>)
    requires |S| == 2 * R + 4 && BlockBelow(iv, WordModulus)
    requires forall k :: 0 <= k < |cs| ==> BlockBelow(cs[k], WordModulus)
    ensures AllBelow(Flatten(CbcDecryptBlocks(S, R, iv, cs)), WordModulus)
  {
    hide Decrypt, XorBlock;
    var ds := CbcDecryptBlocks(S, R, iv, cs);
    forall k | 0 <= k < |cs|
      ensures BlockBelow(ds[k], WordModulus)
    {
      DecryptBelow(S, R, cs[k]);
      var ch := Chain(iv, cs[..k]);
      assert BlockBelow(ch, WordModulus);
      XorBlockProps(Decrypt(S, R, cs[k]), ch);
    }
    FlattenBelow(ds);
  }

  lemma CbcDecryptOutcome(S: seq<nat>, R: nat, data: seq<byte>, iv: seq<byte>)
    requires |S| == 2 * R + 4
    ensures CbcDecrypt(S, R, data, iv).Success? <==> |iv| > 12 && |data| > 0 && GroupCount(|data|) % 4 == 0
    ensures CbcDecrypt(S, R, data, iv).Failure? ==>
      CbcDecrypt(S, R, data, iv).error == (if 0 < |iv| <= 12 && GroupCount(|data|) >= 4 then IndexError else ValueError)
  {
    if |iv| > 12 && |data| > 0 && GroupCount(|data|) % 4 == 0 {
      GroupsAgree(iv);
      EnumeratedBelow(data);
      var ivBlock := IvBlock(GetBlocks(iv).value.1).value;
      CbcDecryptBelow(S, R, ivBlock, EnumerateBlocks(data).value);
    }
  }

  /** `data_decryption_CBC(ct, iv_out) == m` where `(iv_out, ct) = data_encryption_CBC(m, iv)`. */
  lemma CbcRoundTrip(S: seq<nat>, R: nat, data: seq<byte>, iv: seq<byte>)
    requires |S| == 2 * R + 4 && |iv| > 0
    ensures CbcEncrypt(S, R, data, iv).Success?
    ensures var out := CbcEncrypt(S, R, data, iv).value;
      CbcDecrypt(S, R, out.1, out.0) == Success(data)
  {
    CbcEncryptOutcome(S, R, data, iv);
    ExpandIVShape(iv);
    var ivBytes := ExpandIV(iv).value;
    IvWords(ivBytes);
    var ivBlock := IvBlock(GetBlocks(ivBytes).value.1).value;
    Pad16(data);
    var padded := Pad(data, 16).value;
    EnumerateWhole(padded);
    EnumeratedBelow(padded);
    var bs := EnumerateBlocks(padded).value;
    var cs := CbcEncryptBlocks(S, R, ivBlock, bs);
    CbcEncryptBelow(S, R, ivBlock, bs);
    var ct := WordsToBytes(Flatten(cs));
    assert CbcEncrypt(S, R, data, iv).value == (ivBytes, ct);
    EnumerateWordsToBytes(cs);
    CbcBlocksRoundTrip(S, R, ivBlock, bs);
    UnpadPad(data, 16);
  }
}
