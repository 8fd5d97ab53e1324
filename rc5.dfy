/**
 * The class `RC5` of `Server/Encryption/RC5.py`: a constructor that aligns
 * the key, extends it into the table `S` and mixes the two tables in place,
 * and the block and byte-buffer operations, each written as the loop the
 * class runs and proved equal to the function of `RC5Spec` that specifies it.
 */
module RC5Cipher {
  import opened Bits
  import opened LittleEndian
  import opened Results
  import opened RC5Spec

  /**
   * The value `__keyAlign`'s backward loop has built in word `k` once it has
   * consumed bytes `j ..` of the padded key: the little-endian value of the
   * consumed part of that word's bytes.
   */
  ghost function WordSuffix(key: seq<byte>, w8: nat, k: nat, j: nat): nat
    requires k * w8 + w8 <= |key|
  {
    var lo := Max(j, k * w8);
    if lo >= k * w8 + w8 then 0 else FromLE(key[lo .. k * w8 + w8])
  }

  /** Word `k < c` of a `c`-word key lies inside the key. */
  lemma WordInside(k: nat, c: nat, w8: nat)
    requires k < c
    ensures k * w8 + w8 <= c * w8
  {
    MulLeMono(k + 1, c, w8);
    assert (k + 1) * w8 == k * w8 + w8;
  }

  /** An exact quotient multiplies back. */
  lemma ExactDiv(x: int, d: int)
    requires d > 0 && x % d == 0
    ensures (x / d) * d == x
  {
  }

  /** A byte outside word `k` leaves that word's consumed value as it was. */
  lemma AlignOther(key: seq<byte>, w8: nat, k: nat, i: nat)
    requires k * w8 + w8 <= |key|
    requires i < k * w8 || k * w8 + w8 <= i
    ensures WordSuffix(key, w8, k, i) == WordSuffix(key, w8, k, i + 1)
  {
  }

  /** A byte inside word `k` is prepended to that word's consumed value: `(L[k] << 8) + key[i]`. */
  lemma AlignSame(key: seq<byte>, w8: nat, k: nat, i: nat)
    requires k * w8 <= i < k * w8 + w8 <= |key|
    ensures WordSuffix(key, w8, k, i) == WordSuffix(key, w8, k, i + 1) * 256 + key[i]
  {
    var e := k * w8 + w8;
    var s := key[i .. e];
    assert s[1..] == key[i + 1 .. e];
    assert FromLE(s) == key[i] + 256 * FromLE(s[1..]);
    if i + 1 == e {
      assert FromLE(s[1..]) == 0;
    }
  }

  /** Consuming byte `i` prepends it to the word `i / w8` and leaves every other word as it was. */
  lemma AlignStep(key: seq<byte>, w8: nat, c: nat, i: nat, words: seq<nat>)
    requires w8 > 0 && |key| == c * w8 && i < |key| && |words| == c
    requires forall k :: 0 <= k < c ==> k * w8 + w8 <= |key| && words[k] == WordSuffix(key, w8, k, i + 1)
    ensures i / w8 < c
    ensures forall k :: 0 <= k < c ==>
      k * w8 + w8 <= |key| && words[i / w8 := words[i / w8] * 256 + key[i]][k] == WordSuffix(key, w8, k, i)
  {
    var k0 := i / w8;
    DivModUnique(i, w8, k0, i % w8);
    if k0 >= c {
      MulLeMono(c, k0, w8);
      assert false;
    }
    forall k | 0 <= k < c && k != k0
      ensures WordSuffix(key, w8, k, i) == WordSuffix(key, w8, k, i + 1)
    {
      WordInside(k, c, w8);
      if k * w8 <= i < k * w8 + w8 {
        DivModUnique(i, w8, k, i - k * w8);
        assert false;
      }
      AlignOther(key, w8, k, i);
    }
    WordInside(k0, c, w8);
    AlignSame(key, w8, k0, i);
  }

  /** Before the loop no byte is consumed; after it, word `k` is the little-endian value of its bytes. */
  lemma AlignEnds(key: seq<byte>, w8: nat, c: nat)
    requires w8 > 0 && |key| == c * w8
    ensures forall k :: 0 <= k < c ==> k * w8 + w8 <= |key| && WordSuffix(key, w8, k, |key|) == 0
    ensures forall k :: 0 <= k < c ==> WordSuffix(key, w8, k, 0) == FromLE(key[k * w8 .. k * w8 + w8])
  {
    forall k | 0 <= k < c
      ensures k * w8 + w8 <= |key|
    {
      WordInside(k, c, w8);
    }
  }

  /** The three branches of `__keyAlign` produce the padded key and `c = len / w8` words of it (one for an empty key). */
  lemma AlignPadding(key: seq<byte>, w8: nat)
    requires w8 > 0
    ensures |key| % w8 == 0 ==> PaddedKey(key, w8) == key
    ensures |key| % w8 != 0 ==> PaddedKey(key, w8) == key + Zeros(w8 - |key| % w8)
    ensures |key| > 0 ==> (|PaddedKey(key, w8)| / w8) * w8 == |PaddedKey(key, w8)|
    ensures |key| > 0 ==> |AlignKey(key, w8)| == |PaddedKey(key, w8)| / w8
    ensures |key| == 0 ==> AlignKey(key, w8) == [0]
  {
    AlignKeyShape(key, w8);
    if |key| > 0 {
      ExactDiv(|PaddedKey(key, w8)|, w8);
    }
  }

  /** After the loop the words are those of `AlignKey`. */
  lemma AlignResult(key: seq<byte>, w8: nat, words: seq<nat>)
    requires w8 > 0 && |key| > 0 && |words| == |PaddedKey(key, w8)| / w8
    requires forall k :: 0 <= k < |words| ==>
      k * w8 + w8 <= |PaddedKey(key, w8)| && words[k] == WordSuffix(PaddedKey(key, w8), w8, k, 0)
    ensures words == AlignKey(key, w8)
  {
    var p := PaddedKey(key, w8);
    AlignKeyShape(key, w8);
    AlignEnds(p, w8, |words|);
  }

  /**
   * The loop of `__keyAlign`: `c` zero words, then each key byte from the
   * last to the first shifted into word `i / w8` (`(L[i // w8] << 8) + key[i]`).
   */
  method LoadWords(key: seq<byte>, w8: nat, c: nat) returns (words: seq<nat>)
    requires w8 > 0 && ((|key| > 0 && |key| == c * w8) || (|key| == 0 && c == 1))
    ensures |words| == c
    ensures |key| == 0 ==> words == [0]
    ensures |key| > 0 ==> forall k :: 0 <= k < c ==>
      k * w8 + w8 <= |key| && words[k] == WordSuffix(key, w8, k, 0)
  {
    hide FromLE, WordSuffix;
    words := seq(c, _ => 0);
    if |key| > 0 {
      AlignEnds(key, w8, c);
    } else {
      assert words == [0];
    }
    var i := |key|;
    while i > 0
      invariant 0 <= i <= |key| && |words| == c
      invariant |key| == 0 ==> words == [0]
      invariant |key| > 0 ==> forall k :: 0 <= k < c ==>
        k * w8 + w8 <= |key| && words[k] == WordSuffix(key, w8, k, i)
      decreases i
    {
      i := i - 1;
      AlignStep(key, w8, c, i, words);
      words := words[i / w8 := words[i / w8] * 256 + key[i]];
    }
  }

  class RC5 {
    /** Word size in bits. */
    const w: nat
    /** Number of rounds. */
    const R: nat
    const stripExtraNulls: bool
    /** Size of the table `S`: two words per round plus two. */
    const T: nat
    /** Bytes per block and per word. */
    const w4: nat
    const w8: nat
    const mod: nat
    const mask: nat
    /** The key the object was built from, before padding. */
    ghost const rawKey: seq<byte>

    var key: seq<byte>
    var b: nat
    var c: nat
    var L: seq<nat>
    var S: seq<nat>

    ghost predicate Valid()
      reads this
    {
      && SupportedWidth(w)
      && T == 2 * (R + 1) && w4 == w / 4 && w8 == w / 8 && mod == Pow2(w) && mask == mod - 1
      && key == PaddedKey(rawKey, w8) && b == |key| && c == |AlignKey(rawKey, w8)|
      && S == KeySchedule(w, R, rawKey).S && L == KeySchedule(w, R, rawKey).L
    }

    /**
     * `RC5(w, R, key)` for a supported width: the constructor leaves the
     * padded key, its word count and the two mixed tables of `KeySchedule`.
     */
    constructor (w: nat, R: nat, key: seq<byte>, stripExtraNulls: bool)
      requires SupportedWidth(w)
      ensures Valid()
      ensures this.w == w && this.R == R && this.stripExtraNulls == stripExtraNulls && rawKey == key
      ensures |S| == T && |L| == c && Below(S, mod) && Below(L, mod)
    {
      this.w := w;
      this.R := R;
      this.key := key;
      this.stripExtraNulls := stripExtraNulls;
      T := 2 * (R + 1);
      w4 := w / 4;
      w8 := w / 8;
      mod := Pow2(w);
      mask := Pow2(w) - 1;
      b := |key|;
      rawKey := key;
      new;
      KeyAlign();
      KeyExtend();
      Shuffle();
      KeyScheduleShape(w, R, key);
    }

    /** `__keyAlign`: pad the key to whole words and load it into `L`, little-endian, last byte first. */
    method KeyAlign()
      requires SupportedWidth(w) && w8 == w / 8 && key == rawKey && b == |key|
      modifies this
      ensures key == PaddedKey(rawKey, w8) && b == |key| && c == |L|
      ensures L == AlignKey(rawKey, w8)
      ensures S == old(S)
    {
      hide KeySchedule, Words, Mix, FromLE, PaddedKey, AlignKey, WordSuffix;
      WidthBytes(w);
      AlignPadding(rawKey, w8);
      if b == 0 {
        c := 1;
      } else if b % w8 != 0 {
        key := key + Zeros(w8 - b % w8);
        b := |key|;
        c := b / w8;
      } else {
        c := b / w8;
      }
      L := LoadWords(key, w8, c);
      if b > 0 {
        AlignResult(rawKey, w8, L);
      }
    }

    /** `__keyExtend`: `S[i] = (P + i*Q) mod 2^w` for the width's constants `P`, `Q`. */
    method KeyExtend()
      requires SupportedWidth(w)
      modifies this
      ensures S == ExtendKey(w, T, Const(w).value.0, Const(w).value.1)
      ensures key == old(key) && b == old(b) && c == old(c) && L == old(L)
    {
      var PQ := Const(w).value;
      S := ExtendKey(w, T, PQ.0, PQ.1);
    }

    /** `__shuffle`: `3 * max(c, T)` iterations mixing `L` into `S`, both updated in place. */
    method Shuffle()
      requires SupportedWidth(w) && |S| == T && T > 0 && |L| == c && c > 0
      modifies this
      ensures S == Mix(w, MixState(old(S), old(L), 0, 0, 0, 0), 3 * Max(c, T)).S
      ensures L == Mix(w, MixState(old(S), old(L), 0, 0, 0, 0), 3 * Max(c, T)).L
      ensures key == old(key) && b == old(b) && c == old(c)
    {
      hide KeySchedule, Lshift, Xor, Mask, Pow2, AlignKey, PaddedKey, Words, ExtendKey, FromLE, Mix, SupportedWidth;
      WidthBytes(w);
      ghost var st0 := MixState(S, L, 0, 0, 0, 0);
      var i: nat, j: nat, A: nat, B: nat := 0, 0, 0, 0;
      var k := 0;
      MixNext(w, st0, 0);
      while k < 3 * Max(c, T)
        invariant k <= 3 * Max(c, T)
        invariant MixState(S, L, i, j, A, B) == Mix(w, st0, k)
        invariant key == old(key) && b == old(b) && c == old(c)
      {
        MixNext(w, st0, k);
        ghost var before := MixState(S, L, i, j, A, B);
        S := S[i := Lshift(w, S[i] + A + B, 3)];
        A := S[i];
        L := L[j := Lshift(w, L[j] + A + B, A + B)];
        B := L[j];
        i := (i + 1) % T;
        j := (j + 1) % c;
        assert MixState(S, L, i, j, A, B) == MixStep(w, before);
        k := k + 1;
      }
    }

    /** `encryptBlock`: whiten, then `R` rounds of rotate-by-data and add the key word. */
    method EncryptBlock(data: seq<byte>) returns (r: seq<byte>)
      requires Valid()
      ensures r == RC5Spec.EncryptBlock(w, R, S, data)
      ensures |r| == w4
    {
      hide KeySchedule, AlignKey, PaddedKey, Words, ExtendKey, Mix, Lshift, Rshift, Xor, Mask, FromLE, ToLE, Pow2, RStripZeros, CipherLength, DecRounds, RC5Spec.DecryptBlock, RC5Spec.EncryptBytes, DecryptChunks, EncRounds, EncRound, SupportedWidth;
      KeyScheduleShape(w, R, rawKey);
      WidthBytes(w);
      assert |S| == 2 * R + 2 && mod == Pow2(w) && w8 == w / 8;
      var m := Min(w8, |data|);
      var A: nat := FromLE(data[..m]);
      var B: nat := FromLE(data[m..]);
      MaskIsMod(A + S[0], w);
      MaskIsMod(B + S[1], w);
      A := (A + S[0]) % mod;
      B := (B + S[1]) % mod;
      assert A == Mask(FromLE(data[..m]) + S[0], w);
      assert B == Mask(FromLE(data[m..]) + S[1], w);
      ghost var A0, B0 := A, B;
      var i := 1;
      EncRoundsNext(w, S, A0, B0, 0);
      while i <= R
        invariant 1 <= i <= R + 1
        invariant (A, B) == EncRounds(w, S, A0, B0, i - 1)
      {
        EncRoundsNext(w, S, A0, B0, i - 1);
        EncRoundMod(w, S, i, A, B);
        A := (Lshift(w, Xor(A, B), B) + S[2 * i]) % mod;
        B := (Lshift(w, Xor(A, B), A) + S[2 * i + 1]) % mod;
        i := i + 1;
      }
      r := ToLE(A, w8) + ToLE(B, w8);
    }

    /** `decryptBlock`: undo rounds `R` down to 1, then remove the whitening. */
    method DecryptBlock(data: seq<byte>) returns (r: seq<byte>)
      requires Valid()
      ensures r == RC5Spec.DecryptBlock(w, R, S, data)
      ensures |r| == w4
    {
      hide KeySchedule, AlignKey, PaddedKey, Words, ExtendKey, Mix, Lshift, Rshift, Xor, Mask, FromLE, ToLE, Pow2, RStripZeros, CipherLength, EncRounds, RC5Spec.EncryptBlock, RC5Spec.EncryptBytes, DecryptChunks;
      KeyScheduleShape(w, R, rawKey);
      WidthBytes(w);
      var m := Min(w8, |data|);
      var A: nat := FromLE(data[..m]);
      var B: nat := FromLE(data[m..]);
      var i := R;
      while i > 0
        invariant 0 <= i <= R
        invariant DecRounds(w, S, A, B, i) == DecRounds(w, S, FromLE(data[..m]), FromLE(data[m..]), R)
      {
        B := Xor(Rshift(w, B - S[2 * i + 1], A), A);
        A := Xor(Rshift(w, A - S[2 * i], B), B);
        i := i - 1;
      }
      MaskIsMod(B - S[1], w);
      MaskIsMod(A - S[0], w);
      B := (B - S[1]) % mod;
      A := (A - S[0]) % mod;
      r := ToLE(A, w8) + ToLE(B, w8);
    }

    /**
     * `encryptBytes`: encrypt `w/4`-byte chunks until the data runs out; a
     * short last chunk (or empty data) still yields one block.
     */
    method EncryptBytes(data: seq<byte>) returns (res: seq<byte>)
      requires Valid()
      ensures res == RC5Spec.EncryptBytes(w, R, S, data)
      ensures |res| == CipherLength(|data|, w4)
    {
      hide KeySchedule, AlignKey, PaddedKey, Words, ExtendKey, Mix, Lshift, Rshift, Xor, Mask, FromLE, ToLE, Pow2, RStripZeros, CipherLength, EncRounds, DecRounds, EncRound, DecRound, RC5Spec.EncryptBlock, RC5Spec.DecryptBlock, DecryptChunks, RC5Spec.EncryptBytes;
      KeyScheduleShape(w, R, rawKey);
      WidthBytes(w);
      EncryptBytesLength(w, R, S, data);
      res := [];
      var run := true;
      var rest := data;
      while run
        invariant run ==> res + RC5Spec.EncryptBytes(w, R, S, rest) == RC5Spec.EncryptBytes(w, R, S, data)
        invariant !run ==> res == RC5Spec.EncryptBytes(w, R, S, data)
        decreases |rest|, run
      {
        ghost var before, done := rest, res;
        EncryptBytesStep(w, R, S, before);
        var temp := rest[..Min(w4, |rest|)];
        if |temp| != w4 {
          rest := rest + Zeros(w4 - |rest|);
          run := false;
        }
        var block := EncryptBlock(temp);
        res := res + block;
        rest := rest[w4..];
        if |before| <= w4 {
          assert temp == before;
        } else {
          assert RC5Spec.EncryptBytes(w, R, S, before) == block + RC5Spec.EncryptBytes(w, R, S, rest);
          assert done + (block + RC5Spec.EncryptBytes(w, R, S, rest)) == res + RC5Spec.EncryptBytes(w, R, S, rest);
        }
        if |rest| == 0 {
          break;
        }
      }
    }

    /**
     * `decryptBytes`: decrypt `w/4`-byte chunks until the data runs out, then
     * drop trailing zero bytes (whatever `stripExtraNulls` says).
     */
    method DecryptBytes(data: seq<byte>) returns (res: seq<byte>)
      requires Valid()
      ensures res == RC5Spec.DecryptBytes(w, R, S, data)
    {
      hide KeySchedule, AlignKey, PaddedKey, Words, ExtendKey, Mix, Lshift, Rshift, Xor, Mask, FromLE, ToLE, Pow2, RStripZeros, CipherLength, EncRounds, DecRounds, EncRound, DecRound, RC5Spec.EncryptBlock, RC5Spec.DecryptBlock, RC5Spec.EncryptBytes, DecryptChunks;
      KeyScheduleShape(w, R, rawKey);
      WidthBytes(w);
      var out: seq<byte> := [];
      var run := true;
      var rest := data;
      while run
        invariant run ==> out + DecryptChunks(w, R, S, rest) == DecryptChunks(w, R, S, data)
        invariant !run ==> out == DecryptChunks(w, R, S, data)
        decreases |rest|, run
      {
        ghost var before, done := rest, out;
        DecryptChunksStep(w, R, S, before);
        var temp := rest[..Min(w4, |rest|)];
        if |temp| != w4 {
          run := false;
        }
        var block := DecryptBlock(temp);
        out := out + block;
        rest := rest[Min(w4, |rest|)..];
        if |before| <= w4 {
          assert temp == before;
        } else {
          assert DecryptChunks(w, R, S, before) == block + DecryptChunks(w, R, S, rest);
          assert done + (block + DecryptChunks(w, R, S, rest)) == out + DecryptChunks(w, R, S, rest);
        }
        if |rest| == 0 {
          break;
        }
      }
      res := RStripZeros(out);
    }
  }

  /**
   * Building an `RC5` object: it fails (the class raises) exactly when the
   * width has no P/Q constants or the round count is negative. With a
   * non-empty key, `__keyAlign` fails first: `b % w8` divides by zero for
   * `0 <= w < 8`, and for `w < 0` the list `L` is empty and indexing it
   * fails. Otherwise an unsupported width fails in `__keyExtend`, which
   * unpacks the `None` that `__const` returns, and a negative round count
   * leaves `S` empty for `__shuffle` to index.
   */
  method Create(w: int, R: int, key: seq<byte>, stripExtraNulls: bool) returns (r: Result<RC5>)
    ensures r.Failure? <==> !SupportedWidth(w) || R < 0
    ensures r.Failure? && 0 <= w < 8 && |key| > 0 ==> r.error == ZeroDivisionError
    ensures r.Failure? && w < 0 && |key| > 0 ==> r.error == IndexError
    ensures r.Failure? && !SupportedWidth(w) && (|key| == 0 || w >= 8) ==> r.error == TypeError
    ensures r.Failure? && SupportedWidth(w) ==> r.error == IndexError
    ensures r.Success? ==> fresh(r.value) && r.value.Valid() && r.value.w == w && r.value.R == R
    ensures r.Success? ==> r.value.rawKey == key && r.value.stripExtraNulls == stripExtraNulls
  {
    if 0 <= w < 8 && |key| > 0 {
      return Failure(ZeroDivisionError);
    }
    if w < 0 && |key| > 0 {
      return Failure(IndexError);
    }
    if !SupportedWidth(w) {
      return Failure(TypeError);
    }
    if R < 0 {
      return Failure(IndexError);
    }
    var cipher := new RC5(w, R, key, stripExtraNulls);
    return Success(cipher);
  }
}
