/**
 * `RC6Encryption` of `Server/Encryption/RC6.py` as it runs: the static
 * helpers `get_blocks`, `blocks_to_data` and `enumerate_blocks` as loops,
 * and a class whose constructor runs `key_generation` over its fields and
 * whose block and mode methods loop over rounds and blocks. Every method
 * is proved to compute the function of `RC6Words`, `RC6Spec` or
 * `RC6Modes` that specifies it, so the properties proved there hold of it.
 */
module RC6Cipher {
  import opened Bits
  import opened LittleEndian
  import opened Results
  import opened RC6Words
  import opened RC6Spec
  import opened Pkcs
  import opened RC6Modes

  /**
   * An `RC6Encryption` with `w_bit = 32` and `lgw = 5`. The constructor
   * splits the key with `get_blocks` and runs `key_generation`, which
   * overwrites `rc6Key` and the key words in place.
   */
  class RC6 {
    const keyBytes: seq<byte>
    const rounds: nat
    const keyBinaryBlocks: seq<string>
    const keyBlocksNumber: nat
    var keyWords: seq<nat>
    var rc6Key: seq<nat>

    /**
     * `get_blocks(data)`: every byte's eight binary digits are put in front
     * of the current string; at each multiple of four bytes the string is
     * closed and parsed with `int(block, 2)`.
     */
    static method GetBlocks(data: seq<byte>) returns (r: Result<(seq<string>, seq<nat>)>)
      ensures r == RC6Words.GetBlocks(data)
    {
      hide BinLE, BinValue, FromLE, Pow2, BinaryGroups, Groups;
      var binaryBlocks: seq<string> := [];
      var integerBlocks: seq<nat> := [];
      var block: string := "";
      ghost var g: nat := 0;
      for i := 0 to |data|
        invariant i == 0 ==> g == 0 && block == ""
        invariant i > 0 ==> 4 * g < i <= 4 * g + 4
        invariant 4 * g <= i
        invariant binaryBlocks == BinaryGroups(data)[..g]
        invariant integerBlocks == Groups(data)[..g]
        invariant i > 0 ==> block == BinLE(data[4 * g .. i])
      {
        if i > 0 && i % 4 == 0 {
          CloseGroup(data, g, i);
          binaryBlocks := binaryBlocks + [block];
          integerBlocks := integerBlocks + [BaseTwo(block).value];
          block := "";
          g := g + 1;
        }
        assert data[4 * g .. i + 1] == data[4 * g .. i] + [data[i]];
        BinLEPrepend(data[4 * g .. i], data[i]);
        block := BinDigits(data[i], 8) + block;
      }
      if |data| > 0 {
        CloseGroup(data, g, |data|);
        assert BinaryGroups(data)[..g + 1] == BinaryGroups(data);
        assert Groups(data)[..g + 1] == Groups(data);
      }
      var last := BaseTwo(block);
      if last.Failure? {
        return Failure(last.error);
      }
      binaryBlocks := binaryBlocks + [block];
      integerBlocks := integerBlocks + [last.value];
      return Success((binaryBlocks, integerBlocks));
    }

    /** `blocks_to_data(blocks)`: four little-endian bytes per word; a word of 2^32 or more raises `OverflowError`. */
    static method BlocksToData(blocks: seq<nat>) returns (r: Result<seq<byte>>)
      ensures r == RC6Words.BlocksToData(blocks)
    {
      hide ToLE, Pow2;
      Modulus();
      var data: seq<byte> := [];
      for k := 0 to |blocks|
        invariant AllBelow(blocks[..k], WordModulus)
        invariant data == WordsToBytes(blocks[..k])
      {
        if blocks[k] >= WordModulus {
          return Failure(OverflowError);
        }
        assert blocks[..k + 1][..k] == blocks[..k];
        data := data + ToLE(blocks[k], 4);
      }
      assert blocks[..|blocks|] == blocks;
      return Success(data);
    }

    /** `enumerate_blocks(data)`: the words of `get_blocks`, taken four at a time from the front. */
    static method EnumerateBlocks(data: seq<byte>) returns (r: Result<seq<Block>>)
      ensures r == RC6Words.EnumerateBlocks(data)
    {
      hide Groups, BinaryGroups;
      var got :- GetBlocks(data);
      ghost var ws := got.1;
      var blocks := got.1;
      var out: seq<Block> := [];
      while |blocks| > 0
        invariant 4 * |out| + |blocks| == |ws|
        invariant blocks == ws[4 * |out| ..]
        invariant forall k :: 0 <= k < |out| ==> out[k] == Block(ws[4 * k], ws[4 * k + 1], ws[4 * k + 2], ws[4 * k + 3])
        decreases |blocks|
      {
        if |blocks| < 4 {
          return Failure(ValueError);
        }
        out := out + [Block(blocks[0], blocks[1], blocks[2], blocks[3])];
        blocks := blocks[4..];
      }
      assert out == Quads(ws);
      return Success(out);
    }

    /** The fields hold the key's blocks and the round keys of `KeySchedule`. */
    ghost predicate Valid()
      reads this
    {
      && |keyBytes| > 0
      && |rc6Key| == 2 * rounds + 4
      && keyBinaryBlocks == BinaryGroups(keyBytes)
      && keyBlocksNumber == GroupCount(|keyBytes|)
      && rc6Key == KeySchedule(rounds, Groups(keyBytes)).S
      && keyWords == KeySchedule(rounds, Groups(keyBytes)).L
    }

    /** `RC6Encryption(key, rounds)` for a non-empty key; `Create` models the empty key. */
    constructor (key: seq<byte>, rounds: nat)
      requires |key| > 0
      ensures Valid() && keyBytes == key && this.rounds == rounds
      ensures |rc6Key| == 2 * rounds + 4 && AllBelow(rc6Key, WordModulus)
    {
      keyBytes := key;
      this.rounds := rounds;
      var blocks := GetBlocks(key);
      keyBinaryBlocks := blocks.value.0;
      keyWords := blocks.value.1;
      keyBlocksNumber := |blocks.value.0|;
      rc6Key := [P32];
      new;
      KeyGeneration();
      GroupsAgree(key);
      KeyScheduleShape(rounds, Groups(key));
    }

    /**
     * `key_generation()`: extend `rc6Key` from `[P32]` by adding `Q32`
     * each time, then mix it with the key words for `3 * max(c, 2R+4)`
     * iterations.
     */
    method KeyGeneration()
      requires |keyBytes| > 0 && keyBlocksNumber == GroupCount(|keyBytes|)
      requires rc6Key == [P32] && keyWords == Groups(keyBytes)
      modifies this
      ensures rc6Key == KeySchedule(rounds, Groups(keyBytes)).S
      ensures keyWords == KeySchedule(rounds, Groups(keyBytes)).L
    {
      hide InitialKey, LeftRotation, RightRotation, KeyMix, BinaryGroups, Groups;
      ghost var L0 := keyWords;
      assert rc6Key == InitialKey(rounds)[..1] by {
        InitialKeyRecurrence(rounds);
      }
      for i := 0 to 2 * rounds + 3
        invariant rc6Key == InitialKey(rounds)[..i + 1]
        invariant keyWords == L0
      {
        assert InitialKey(rounds)[..i + 2] == rc6Key + [(rc6Key[i] + Q32) % WordModulus] by {
          InitialKeyRecurrence(rounds);
        }
        rc6Key := rc6Key + [(rc6Key[i] + Q32) % WordModulus];
      }
      assert rc6Key == InitialKey(rounds);
      ghost var st0 := KeyState(rc6Key, keyWords, 0, 0, 0, 0);
      var S: seq<nat>, L: seq<nat> := rc6Key, keyWords;
      var a: nat, b: nat, i: nat, j: nat := 0, 0, 0, 0;
      var v := 3 * (if keyBlocksNumber > 2 * rounds + 4 then keyBlocksNumber else 2 * rounds + 4);
      assert v == 3 * Max(|L0|, 2 * rounds + 4);
      KeyMixNext(st0, 0);
      for n := 0 to v
        invariant KeyState(S, L, i, j, a, b) == KeyMix(st0, n)
      {
        KeyMixNext(st0, n);
        ghost var before := KeyState(S, L, i, j, a, b);
        a := LeftRotation((S[i] + a + b) % WordModulus, 3);
        S := S[i := a];
        b := LeftRotation((L[j] + a + b) % WordModulus, (a + b) % 32);
        L := L[j := b];
        i := (i + 1) % (2 * rounds + 4);
        j := (j + 1) % keyBlocksNumber;
        assert KeyState(S, L, i, j, a, b) == KeyStep(before);
      }
      rc6Key, keyWords := S, L;
    }

    /** `encrypt(block)` on four words. */
    method Encrypt(blk: Block) returns (r: Block)
      requires Valid()
      ensures r == RC6Spec.Encrypt(rc6Key, rounds, blk)
    {
      hide RightRotation, LeftRotation, BinaryGroups, Groups, Xor, KeySchedule, KeyMix, InitialKey, EncRounds;
      var S := rc6Key;
      var a: nat, b: nat, c: nat, d: nat := blk.a, (blk.b + S[0]) % WordModulus, blk.c, (blk.d + S[1]) % WordModulus;
      ghost var start := Block(a, b, c, d);
      EncRoundsNext(S, start, 0);
      for i := 1 to rounds + 1
        invariant Block(a, b, c, d) == EncRounds(S, start, i - 1)
      {
        EncRoundsNext(S, start, i - 1);
        ghost var before := Block(a, b, c, d);
        var t := LeftRotation(b * (2 * b + 1) % WordModulus, LgW);
        var u := LeftRotation(d * (2 * d + 1) % WordModulus, LgW);
        assert t == F(b) && u == F(d);
        var tmod := t % W;
        var umod := u % W;
        a := (LeftRotation(Xor(a, t), umod) + S[2 * i]) % WordModulus;
        c := (LeftRotation(Xor(c, u), tmod) + S[2 * i + 1]) % WordModulus;
        a, b, c, d := b, c, d, a;
        assert Block(a, b, c, d) == EncRound(S, i, before);
      }
      a := (a + S[2 * rounds + 2]) % WordModulus;
      c := (c + S[2 * rounds + 3]) % WordModulus;
      return Block(a, b, c, d);
    }

    /** `decrypt(block)` on four words. */
    method Decrypt(blk: Block) returns (r: Block)
      requires Valid()
      ensures r == RC6Spec.Decrypt(rc6Key, rounds, blk)
    {
      hide BinaryGroups, Groups, RightRotation, LeftRotation, Xor, KeySchedule, KeyMix, InitialKey;
      var S := rc6Key;
      var a: nat, b: nat, c: nat, d: nat := (blk.a - S[2 * rounds + 2]) % WordModulus, blk.b, (blk.c - S[2 * rounds + 3]) % WordModulus, blk.d;
      ghost var start := Block(a, b, c, d);
      for i := rounds + 1 downto 1
        invariant DecRounds(S, Block(a, b, c, d), i - 1) == DecRounds(S, start, rounds)
      {
        ghost var before := Block(a, b, c, d);
        a, b, c, d := d, a, b, c;
        var u := LeftRotation(d * (2 * d + 1) % WordModulus, LgW);
        var t := LeftRotation(b * (2 * b + 1) % WordModulus, LgW);
        assert t == F(b) && u == F(d);
        var tmod := t % W;
        var umod := u % W;
        c := Xor(RightRotation((c - S[2 * i + 1]) % WordModulus, tmod), u);
        a := Xor(RightRotation((a - S[2 * i]) % WordModulus, umod), t);
        assert Block(a, b, c, d) == DecRound(S, i, before);
      }
      d := (d - S[1]) % WordModulus;
      b := (b - S[0]) % WordModulus;
      return Block(a, b, c, d);
    }

    /** `encrypt(data)` with `data` given as bytes: `get_blocks` must yield exactly four words. */
    method EncryptBytes(data: seq<byte>) returns (r: Result<Block>)
      requires Valid()
      ensures r.Success? <==> UnpackBlock(data).Success?
      ensures r.Failure? ==> r.error == UnpackBlock(data).error
      ensures r.Success? ==> r.value == RC6Spec.Encrypt(rc6Key, rounds, UnpackBlock(data).value)
    {
      var blocks :- GetBlocks(data);
      var ws := blocks.1;
      if |ws| != 4 {
        return Failure(ValueError);
      }
      var out := Encrypt(Block(ws[0], ws[1], ws[2], ws[3]));
      return Success(out);
    }

    /** `decrypt(data)` with `data` given as bytes. */
    method DecryptBytes(data: seq<byte>) returns (r: Result<Block>)
      requires Valid()
      ensures r.Success? <==> UnpackBlock(data).Success?
      ensures r.Failure? ==> r.error == UnpackBlock(data).error
      ensures r.Success? ==> r.value == RC6Spec.Decrypt(rc6Key, rounds, UnpackBlock(data).value)
    {
      var blocks :- GetBlocks(data);
      var ws := blocks.1;
      if |ws| != 4 {
        return Failure(ValueError);
      }
      var out := Decrypt(Block(ws[0], ws[1], ws[2], ws[3]));
      return Success(out);
    }

    /** `data_encryption_ECB(data)`. */
    method DataEncryptionECB(data: seq<byte>) returns (r: Result<seq<byte>>)
      requires Valid()
      ensures r == EcbEncrypt(rc6Key, rounds, data)
    {
      hide KeySchedule, KeyMix, InitialKey, BinaryGroups, Groups, RC6Spec.Encrypt, Pad;
      var padded :- Pad(data, 16);
      var bs :- EnumerateBlocks(padded);
      ghost var es := EcbEncryptBlocks(rc6Key, rounds, bs);
      var encrypted: seq<nat> := [];
      for k := 0 to |bs|
        invariant encrypted == Flatten(es[..k])
      {
        var e := Encrypt(bs[k]);
        assert es[..k + 1][..k] == es[..k];
        encrypted := encrypted + [e.a, e.b, e.c, e.d];
      }
      assert es[..|bs|] == es;
      r := BlocksToData(encrypted);
    }

    /** `data_decryption_ECB(data)`. */
    method DataDecryptionECB(data: seq<byte>) returns (r: Result<seq<byte>>)
      requires Valid()
      ensures r == EcbDecrypt(rc6Key, rounds, data)
    {
      hide KeySchedule, KeyMix, InitialKey, BinaryGroups, Groups, RC6Spec.Decrypt;
      var bs :- EnumerateBlocks(data);
      ghost var ds := EcbDecryptBlocks(rc6Key, rounds, bs);
      var decrypted: seq<nat> := [];
      for k := 0 to |bs|
        invariant decrypted == Flatten(ds[..k])
      {
        var p := Decrypt(bs[k]);
        assert ds[..k + 1][..k] == ds[..k];
        decrypted := decrypted + [p.a, p.b, p.c, p.d];
      }
      assert ds[..|bs|] == ds;
      var plain :- BlocksToData(decrypted);
      r := Unpad(plain);
    }

    /** The chaining loop of `data_encryption_CBC`: the words of the CBC-encrypted blocks, starting from `iv`. */
    method EncryptChained(iv: Block, bs: seq<Block>) returns (encrypted: seq<nat>)
      requires Valid()
      ensures encrypted == Flatten(CbcEncryptBlocks(rc6Key, rounds, iv, bs))
    {
      hide KeySchedule, KeyMix, InitialKey, BinaryGroups, Groups, RC6Spec.Encrypt, XorBlock;
      ghost var cs := CbcEncryptBlocks(rc6Key, rounds, iv, bs);
      var chain := iv;
      encrypted := [];
      for k := 0 to |bs|
        invariant encrypted == Flatten(cs[..k])
        invariant chain == Chain(iv, cs[..k])
      {
        CbcEncryptAt(rc6Key, rounds, iv, bs, k);
        var block := XorBlock(bs[k], chain);
        chain := Encrypt(block);
        assert cs[..k + 1][..k] == cs[..k];
        encrypted := encrypted + [chain.a, chain.b, chain.c, chain.d];
      }
      assert cs[..|bs|] == cs;
    }

    /** `data_encryption_CBC(data, iv)` for a given IV: returns the expanded IV and the ciphertext. */
    method DataEncryptionCBC(data: seq<byte>, iv: seq<byte>) returns (r: Result<(seq<byte>, seq<byte>)>)
      requires Valid()
      ensures r == CbcEncrypt(rc6Key, rounds, data, iv)
    {
      hide KeySchedule, KeyMix, InitialKey, BinaryGroups, Groups, Pad, ExpandIV, CbcEncryptBlocks, Flatten;
      var ivBytes :- ExpandIV(iv);
      var ivBlocks :- GetBlocks(ivBytes);
      var padded :- Pad(data, 16);
      var bs :- EnumerateBlocks(padded);
      var ivBlock :- IvBlock(ivBlocks.1);
      var encrypted := EncryptChained(ivBlock, bs);
      var cipher :- BlocksToData(encrypted);
      r := Success((ivBytes, cipher));
    }

    /** The chaining loop of `data_decryption_CBC`: each block decrypted, then XORed with the one before it, or with `iv`. */
    method DecryptChained(iv: Block, cs: seq<Block>) returns (decrypted: seq<nat>)
      requires Valid()
      ensures decrypted == Flatten(CbcDecryptBlocks(rc6Key, rounds, iv, cs))
    {
      hide KeySchedule, KeyMix, InitialKey, BinaryGroups, Groups, RC6Spec.Decrypt, XorBlock;
      ghost var ds := CbcDecryptBlocks(rc6Key, rounds, iv, cs);
      var chain := iv;
      decrypted := [];
      for k := 0 to |cs|
        invariant decrypted == Flatten(ds[..k])
        invariant chain == Chain(iv, cs[..k])
      {
        var p := Decrypt(cs[k]);
        var block := XorBlock(p, chain);
        assert ds[..k + 1][..k] == ds[..k];
        decrypted := decrypted + [block.a, block.b, block.c, block.d];
        chain := cs[k];
        assert cs[..k + 1][k] == cs[k];
      }
      assert ds[..|cs|] == ds;
    }

    /**
     * `data_decryption_CBC(data, iv)`. The generator behind
     * `enumerate_blocks` fails on empty data or a missing first block
     * before the loop first indexes the IV's words.
     */
    method DataDecryptionCBC(data: seq<byte>, iv: seq<byte>) returns (r: Result<seq<byte>>)
      requires Valid()
      ensures r == CbcDecrypt(rc6Key, rounds, data, iv)
    {
      hide KeySchedule, KeyMix, InitialKey, BinaryGroups, Groups, CbcDecryptBlocks, Flatten;
      var ivBlocks :- GetBlocks(iv);
      if |data| == 0 || GroupCount(|data|) < 4 {
        return Failure(ValueError);
      }
      var ivBlock :- IvBlock(ivBlocks.1);
      var cs :- EnumerateBlocks(data);
      var decrypted := DecryptChained(ivBlock, cs);
      var plain :- BlocksToData(decrypted);
      r := Unpad(plain);
    }
  }

  /** `RC6Encryption(key, rounds)`: an empty key raises `ValueError` from `get_blocks`. */
  method Create(key: seq<byte>, rounds: nat) returns (r: Result<RC6>)
    ensures r.Failure? <==> |key| == 0
    ensures r.Failure? ==> r.error == ValueError
    ensures r.Success? ==> fresh(r.value) && r.value.Valid() && r.value.keyBytes == key && r.value.rounds == rounds
  {
    if |key| == 0 {
      return Failure(ValueError);
    }
    var cipher := new RC6(key, rounds);
    return Success(cipher);
  }
}
