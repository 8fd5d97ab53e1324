/**
 * RC5 as `Server/Encryption/RC5.py` computes it, as pure functions of the
 * word width `w`, the round count `R`, the key schedule `S` and the input.
 * The class in rc5.dfy runs the same computations step by step and is
 * proved equal to these functions; the properties of the cipher (rotations
 * invert, block decryption inverts block encryption, the byte-buffer loops
 * round-trip up to trailing zero bytes) are proved here.
 */
module RC5Spec {
  import opened Bits
  import opened LittleEndian
  import opened Results

  /** The word widths for which `__const` knows the magic constants. */
  predicate SupportedWidth(w: int)
  {
    w == 16 || w == 32 || w == 64
  }

  /** A supported word is a whole number of bytes, and a block is two words. */
  lemma WidthBytes(w: int)
    requires SupportedWidth(w)
    ensures w > 0 && w / 8 > 0 && 8 * (w / 8) == w && w / 4 == 2 * (w / 8)
  {
  }

  // ---------------------------------------------------------------------
  // Rotations (`__lshift`, `__rshift`)
  // ---------------------------------------------------------------------

  /**
   * `__lshift(val, n)`: `n` is reduced modulo `w`, then
   * `((val << n) & mask) | ((val & mask) >> (w - n))`. Its value is the
   * `w`-bit residue of `val` rotated left by `n % w` (LshiftRotates).
   */
  function Lshift(w: nat, val: int, n: int): (r: nat)
    requires w > 0
    ensures r < Pow2(w)
  {
    var k := n % w;
    RotlMasked(val, w, k);
    RotRBound(w, Mask(val, w), w - k);
    MaskedRotl(val, w, k)
  }

  /**
   * `__rshift(val, n)`: `n` is reduced modulo `w`, then
   * `((val & mask) >> n) | (val << (w - n) & mask)`. Its value is the
   * `w`-bit residue of `val` rotated right by `n % w` (RshiftRotates).
   */
  function Rshift(w: nat, val: int, n: int): (r: nat)
    requires w > 0
    ensures r < Pow2(w)
  {
    var k := n % w;
    RotrMasked(val, w, k);
    RotRBound(w, Mask(val, w), k);
    MaskedRotr(val, w, k)
  }

  /**
   * `__lshift(val, n)` is the `w`-bit residue of `val` rotated left by
   * `n % w` bits (that is, right by `w - n % w`), whatever the sign or size
   * of `val` and `n`.
   */
  lemma LshiftRotates(w: nat, val: int, n: int)
    requires w > 0
    ensures Lshift(w, val, n) == RotR(w, Mask(val, w), w - n % w)
  {
    RotlMasked(val, w, n % w);
  }

  /**
   * `__rshift(val, n)` is the `w`-bit residue of `val` rotated right by
   * `n % w` bits, whatever the sign or size of `val` and `n`.
   */
  lemma RshiftRotates(w: nat, val: int, n: int)
    requires w > 0
    ensures Rshift(w, val, n) == RotR(w, Mask(val, w), n % w)
  {
    RotrMasked(val, w, n % w);
  }

  /** `__rshift(__lshift(v, n), n) == v mod 2^w`. */
  lemma RshiftLshift(w: nat, val: int, n: int)
    requires w > 0
    ensures Rshift(w, Lshift(w, val, n), n) == Mask(val, w)
  {
    var k := n % w;
    var v := Mask(val, w);
    var x := Lshift(w, val, n);
    calc {
      Rshift(w, x, n);
      { RshiftRotates(w, x, n); }
      RotR(w, Mask(x, w), k);
      { MaskSmall(x, w); }
      RotR(w, x, k);
      { LshiftRotates(w, val, n); }
      RotR(w, RotR(w, v, w - k), k);
      { RotRInverseBack(w, v, k); }
      v;
    }
  }

  /** `__rshift` only looks at the low `w` bits of its value. */
  lemma RshiftResidue(w: nat, val: int, n: int)
    requires w > 0
    ensures Rshift(w, Mask(val, w), n) == Rshift(w, val, n)
  {
    var v := Mask(val, w);
    MaskSmall(v, w);
    RshiftRotates(w, val, n);
    RshiftRotates(w, v, n);
  }

  // ---------------------------------------------------------------------
  // Key schedule (`__const`, `__keyAlign`, `__keyExtend`, `__shuffle`)
  // ---------------------------------------------------------------------

  /**
   * `__const`: the magic constants P (from e) and Q (from the golden
   * ratio) for the width; any other width returns None, which the
   * constructor then fails to unpack.
   */
  function Const(w: int): (r: Option<(nat, nat)>)
    ensures r.Some? <==> SupportedWidth(w)
    ensures r.Some? ==> r.value.0 < Pow2(w) && r.value.1 < Pow2(w)
    ensures r.Some? ==> r.value.0 % 2 == 1 && r.value.1 % 2 == 1
  {
    Pow2Values();
    if w == 16 then Some((0xB7E1, 0x9E37))
    else if w == 32 then Some((0xB7E15163, 0x9E3779B9))
    else if w == 64 then Some((0xB7E151628AED2A6B, 0x9E3779B97F4A7C15))
    else None
  }

  /** The key right-padded with zero bytes to a whole number of `w8`-byte words. */
  function PaddedKey(key: seq<byte>, w8: nat): (r: seq<byte>)
    requires w8 > 0
    ensures |r| % w8 == 0 && |key| <= |r| < |key| + w8
    ensures r[..|key|] == key && forall k :: |key| <= k < |r| ==> r[k] == 0
  {
    if |key| % w8 == 0 then key
    else
      RoundUp(|key|, w8);
      key + Zeros(w8 - |key| % w8)
  }

  /** Consecutive `w8`-byte little-endian words of `s`. */
  function Words(s: seq<byte>, w8: nat): (ws: seq<nat>)
    requires w8 > 0 && |s| % w8 == 0
    decreases |s|
  {
    if |s| == 0 then []
    else
      ModAddMultiple(|s| - w8, 1, w8);
      [FromLE(s[..w8])] + Words(s[w8..], w8)
  }

  /** `__keyAlign`'s list `L`: a single zero word for an empty key, otherwise the words of the padded key. */
  function AlignKey(key: seq<byte>, w8: nat): seq<nat>
    requires w8 > 0
  {
    if |key| == 0 then [0] else Words(PaddedKey(key, w8), w8)
  }

  /** `__keyExtend`: `S = [(P + i * Q) % 2**w for i in range(T)]`. */
  function ExtendKey(w: nat, T: nat, P: nat, Q: nat): seq<nat>
  {
    seq(T, i => Mask(P + i * Q, w))
  }

  /** The variables of `__shuffle`'s loop: the two tables, their cursors and the two accumulators. */
  datatype MixState = MixState(S: seq<nat>, L: seq<nat>, i: nat, j: nat, A: nat, B: nat)

  predicate Shaped(st: MixState, T: nat, c: nat)
  {
    |st.S| == T && |st.L| == c && st.i < T && st.j < c
  }

  /** One iteration of `__shuffle`'s loop. */
  function MixStep(w: nat, st: MixState): (r: MixState)
    requires w > 0 && st.i < |st.S| && st.j < |st.L|
  {
    var A := Lshift(w, st.S[st.i] + st.A + st.B, 3);
    var B := Lshift(w, st.L[st.j] + A + st.B, A + st.B);
    MixState(st.S[st.i := A], st.L[st.j := B], (st.i + 1) % |st.S|, (st.j + 1) % |st.L|, A, B)
  }

  /** `n` iterations of `__shuffle`'s loop; the tables keep their sizes. */
  function Mix(w: nat, st: MixState, n: nat): (r: MixState)
    requires w > 0 && Shaped(st, |st.S|, |st.L|)
    ensures Shaped(r, |st.S|, |st.L|)
  {
    if n == 0 then st else MixStep(w, Mix(w, st, n - 1))
  }

  /** The tables `S` and `L` that the constructor leaves behind for a key. */
  function KeySchedule(w: nat, R: nat, key: seq<byte>): MixState
    requires SupportedWidth(w)
  {
    var L := AlignKey(key, w / 8);
    var PQ := Const(w).value;
    var T := 2 * (R + 1);
    assert |L| > 0 by { AlignKeyShape(key, w / 8); }
    Mix(w, MixState(ExtendKey(w, T, PQ.0, PQ.1), L, 0, 0, 0, 0), 3 * Max(|L|, T))
  }

  /** The `k`-th word of `Words(s, w8)` is the little-endian value of bytes `k*w8 .. k*w8 + w8 - 1`. */
  lemma {:induction false} WordsAt(s: seq<byte>, w8: nat, k: nat)
    requires w8 > 0 && |s| % w8 == 0 && k < |s| / w8
    ensures |Words(s, w8)| == |s| / w8
    ensures k * w8 + w8 <= |s|
    ensures Words(s, w8)[k] == FromLE(s[k * w8 .. k * w8 + w8])
    decreases |s|
  {
    hide FromLE;
    WordsLength(s, w8);
    ModAddMultiple(|s| - w8, 1, w8);
    if k > 0 {
      WordsAt(s[w8..], w8, k - 1);
      assert (k - 1) * w8 + w8 == k * w8;
      assert s[w8..][(k - 1) * w8 .. (k - 1) * w8 + w8] == s[k * w8 .. k * w8 + w8];
    } else {
      assert |s| > 0;
    }
  }

  lemma {:induction false} WordsLength(s: seq<byte>, w8: nat)
    requires w8 > 0 && |s| % w8 == 0
    ensures |Words(s, w8)| == |s| / w8
    ensures forall k :: 0 <= k < |Words(s, w8)| ==> Words(s, w8)[k] < Pow2(8 * w8)
    decreases |s|
  {
    if |s| > 0 {
      ModAddMultiple(|s| - w8, 1, w8);
      WordsLength(s[w8..], w8);
      FromLEBound(s[..w8]);
    }
  }

  /**
   * Key alignment: an empty key gives `c = 1` and `L = [0]`; otherwise the
   * key padded with zero bytes to a multiple of `w8` bytes is cut into
   * `c = ceil(len(key) / w8)` words, word `k` being the little-endian value
   * of bytes `k*w8 .. k*w8 + w8 - 1`; every word has `8 * w8` bits.
   */
  lemma AlignKeyShape(key: seq<byte>, w8: nat)
    requires w8 > 0
    ensures |key| == 0 ==> AlignKey(key, w8) == [0]
    ensures |key| > 0 ==> |PaddedKey(key, w8)| % w8 == 0
    ensures |key| > 0 ==> |AlignKey(key, w8)| == (|key| + w8 - 1) / w8 == |PaddedKey(key, w8)| / w8
    ensures |key| > 0 ==> forall k :: 0 <= k < |AlignKey(key, w8)| ==>
      k * w8 + w8 <= |PaddedKey(key, w8)| &&
      AlignKey(key, w8)[k] == FromLE(PaddedKey(key, w8)[k * w8 .. k * w8 + w8])
    ensures forall k :: 0 <= k < |AlignKey(key, w8)| ==> AlignKey(key, w8)[k] < Pow2(8 * w8)
  {
    if |key| > 0 {
      var p := PaddedKey(key, w8);
      CeilDiv(|key|, w8);
      WordsLength(p, w8);
      forall k | 0 <= k < |AlignKey(key, w8)|
        ensures k * w8 + w8 <= |p| && AlignKey(key, w8)[k] == FromLE(p[k * w8 .. k * w8 + w8])
      {
        WordsAt(p, w8, k);
      }
    }
  }

  /**
   * The initial table: `T` entries below `2^w`, `S[0] = P` and each next
   * entry is the previous one plus `Q` modulo `2^w`.
   */
  lemma ExtendKeyRecurrence(w: nat, T: nat, P: nat, Q: nat)
    requires P < Pow2(w)
    ensures |ExtendKey(w, T, P, Q)| == T
    ensures forall i :: 0 <= i < T ==> ExtendKey(w, T, P, Q)[i] < Pow2(w)
    ensures T > 0 ==> ExtendKey(w, T, P, Q)[0] == P
    ensures forall i :: 0 < i < T ==>
      ExtendKey(w, T, P, Q)[i] == Mask(ExtendKey(w, T, P, Q)[i - 1] + Q, w)
  {
    hide Mask;
    var S := ExtendKey(w, T, P, Q);
    if T > 0 {
      MaskSmall(P, w);
    }
    forall i | 0 < i < T
      ensures S[i] == Mask(S[i - 1] + Q, w)
    {
      NextMultiple(P, Q, i, w);
    }
  }

  /** `(P + i*Q) mod 2^w` is `(P + (i-1)*Q) mod 2^w` plus `Q`, modulo `2^w`. */
  lemma NextMultiple(P: int, Q: int, i: int, w: nat)
    ensures Mask(P + i * Q, w) == Mask(Mask(P + (i - 1) * Q, w) + Q, w)
  {
    hide Mask;
    var x := P + (i - 1) * Q;
    assert P + i * Q == x + Q;
    MaskIsMod(x + Q, w);
    MaskIsMod(x, w);
    MaskIsMod(Mask(x, w) + Q, w);
    ModOfSum(x, Q, Pow2(w));
  }

  predicate Below(s: seq<nat>, m: nat)
  {
    forall k :: 0 <= k < |s| ==> s[k] < m
  }

  /** `n` mixing steps followed by one more are `n + 1` steps, and each keeps the shape. */
  lemma MixNext(w: nat, st: MixState, n: nat)
    requires w > 0 && Shaped(st, |st.S|, |st.L|)
    ensures Mix(w, st, 0) == st
    ensures Shaped(Mix(w, st, n), |st.S|, |st.L|)
    ensures Mix(w, st, n + 1) == MixStep(w, Mix(w, st, n))
  {
  }

  /** One iteration of `__shuffle` keeps every table entry and both accumulators below `2^w`. */
  lemma MixStepBounds(w: nat, st: MixState)
    requires w > 0 && Shaped(st, |st.S|, |st.L|)
    requires Below(st.S, Pow2(w)) && Below(st.L, Pow2(w))
    ensures Below(MixStep(w, st).S, Pow2(w)) && Below(MixStep(w, st).L, Pow2(w))
    ensures MixStep(w, st).A < Pow2(w) && MixStep(w, st).B < Pow2(w)
  {
  }

  /**
   * `__shuffle` keeps `len(S) == T` and `len(L) == c` and leaves every
   * entry of both tables in `[0, 2^w)`, for any number of iterations.
   */
  lemma {:induction false} MixBounds(w: nat, st: MixState, n: nat)
    requires w > 0 && Shaped(st, |st.S|, |st.L|)
    requires Below(st.S, Pow2(w)) && Below(st.L, Pow2(w))
    ensures |Mix(w, st, n).S| == |st.S| && |Mix(w, st, n).L| == |st.L|
    ensures Below(Mix(w, st, n).S, Pow2(w)) && Below(Mix(w, st, n).L, Pow2(w))
    ensures n > 0 ==> Mix(w, st, n).A < Pow2(w) && Mix(w, st, n).B < Pow2(w)
  {
    hide MixStep, Lshift, Mask;
    if n > 0 {
      MixBounds(w, st, n - 1);
      MixStepBounds(w, Mix(w, st, n - 1));
    }
  }

  /**
   * The key schedule: `S` has `T = 2(R+1)` entries and `L` has `c` entries
   * (`c = 1` for an empty key), every entry in `[0, 2^w)`, after exactly
   * `3 * max(c, T)` mixing iterations.
   */
  lemma KeyScheduleShape(w: nat, R: nat, key: seq<byte>)
    requires SupportedWidth(w)
    ensures |KeySchedule(w, R, key).S| == 2 * (R + 1)
    ensures |KeySchedule(w, R, key).L| == |AlignKey(key, w / 8)| >= 1
    ensures Below(KeySchedule(w, R, key).S, Pow2(w))
    ensures Below(KeySchedule(w, R, key).L, Pow2(w))
  {
    hide Mix, Lshift, Mask, Words, FromLE, Const, Pow2, SupportedWidth, ExtendKey, AlignKey;
    WidthBytes(w);
    var L := AlignKey(key, w / 8);
    var PQ := Const(w).value;
    var T := 2 * (R + 1);
    AlignKeyShape(key, w / 8);
    ExtendKeyRecurrence(w, T, PQ.0, PQ.1);
    MixBounds(w, MixState(ExtendKey(w, T, PQ.0, PQ.1), L, 0, 0, 0, 0), 3 * Max(|L|, T));
  }

  // ---------------------------------------------------------------------
  // Block cipher (`encryptBlock`, `decryptBlock`)
  // ---------------------------------------------------------------------

  /** `int.from_bytes(data[:w8])` and `int.from_bytes(data[w8:])`: `A` from the first `w8` bytes, `B` from all the rest. */
  function SplitBlock(data: seq<byte>, w8: nat): (nat, nat)
  {
    var m := Min(w8, |data|);
    (FromLE(data[..m]), FromLE(data[m..]))
  }

  /** Round `i` of `encryptBlock`'s loop: `A` is mixed with `B` and `S[2i]`, then `B` with the new `A` and `S[2i+1]`. */
  function EncRound(w: nat, S: seq<nat>, i: nat, A: nat, B: nat): (r: (nat, nat))
    requires w > 0 && |S| >= 2 * i + 2
    ensures r.0 < Pow2(w) && r.1 < Pow2(w)
  {
    var a := Mask(Lshift(w, Xor(A, B), B) + S[2 * i], w);
    var b := Mask(Lshift(w, Xor(a, B), a) + S[2 * i + 1], w);
    (a, b)
  }

  /** Round `i` of `decryptBlock`'s loop: `B` is recovered first, then `A`. */
  function DecRound(w: nat, S: seq<nat>, i: nat, A: nat, B: nat): (nat, nat)
    requires w > 0 && |S| >= 2 * i + 2
  {
    var b := Xor(Rshift(w, B - S[2 * i + 1], A), A);
    var a := Xor(Rshift(w, A - S[2 * i], b), b);
    (a, b)
  }

  /** Rounds 1 to `n` of `encryptBlock`'s loop applied to `(A, B)`. */
  function EncRounds(w: nat, S: seq<nat>, A: nat, B: nat, n: nat): (r: (nat, nat))
    requires w > 0 && |S| >= 2 * n + 2
    requires A < Pow2(w) && B < Pow2(w)
    ensures r.0 < Pow2(w) && r.1 < Pow2(w)
    decreases n
  {
    if n == 0 then (A, B)
    else
      var ab := EncRounds(w, S, A, B, n - 1);
      EncRound(w, S, n, ab.0, ab.1)
  }

  /** `decryptBlock`'s loop from round `n` down to round 1, applied to `(A, B)`. */
  function DecRounds(w: nat, S: seq<nat>, A: nat, B: nat, n: nat): (nat, nat)
    requires w > 0 && |S| >= 2 * n + 2
    decreases n
  {
    if n == 0 then (A, B)
    else
      var ab := DecRound(w, S, n, A, B);
      DecRounds(w, S, ab.0, ab.1, n - 1)
  }

  /** One encryption round with `%` in place of the mask, as `encryptBlock` writes it. */
  lemma EncRoundMod(w: nat, S: seq<nat>, i: nat, A: nat, B: nat)
    requires w > 0 && |S| >= 2 * i + 2
    ensures var a := (Lshift(w, Xor(A, B), B) + S[2 * i]) % Pow2(w);
      EncRound(w, S, i, A, B) == (a, (Lshift(w, Xor(a, B), a) + S[2 * i + 1]) % Pow2(w))
  {
    var a := Mask(Lshift(w, Xor(A, B), B) + S[2 * i], w);
    MaskIsMod(Lshift(w, Xor(A, B), B) + S[2 * i], w);
    MaskIsMod(Lshift(w, Xor(a, B), a) + S[2 * i + 1], w);
  }

  /** `EncRounds` one round at a time. */
  lemma EncRoundsNext(w: nat, S: seq<nat>, A: nat, B: nat, n: nat)
    requires w > 0 && |S| >= 2 * n + 2
    requires A < Pow2(w) && B < Pow2(w)
    ensures EncRounds(w, S, A, B, 0) == (A, B)
    ensures |S| >= 2 * n + 4 ==> var ab := EncRounds(w, S, A, B, n);
      EncRounds(w, S, A, B, n + 1) == EncRound(w, S, n + 1, ab.0, ab.1)
  {
  }

  /** `encryptBlock(data)`: whiten with `S[0], S[1]`, run `R` rounds, write `A` then `B` little-endian. */
  function EncryptBlock(w: nat, R: nat, S: seq<nat>, data: seq<byte>): (r: seq<byte>)
    requires SupportedWidth(w) && |S| >= 2 * R + 2
    ensures |r| == w / 4
  {
    var AB := SplitBlock(data, w / 8);
    var ab := EncRounds(w, S, Mask(AB.0 + S[0], w), Mask(AB.1 + S[1], w), R);
    WidthBytes(w);
    ToLE(ab.0, w / 8) + ToLE(ab.1, w / 8)
  }

  /** `decryptBlock(data)`: undo rounds `R` down to 1, remove the whitening, write `A` then `B`. */
  function DecryptBlock(w: nat, R: nat, S: seq<nat>, data: seq<byte>): (r: seq<byte>)
    requires SupportedWidth(w) && |S| >= 2 * R + 2
    ensures |r| == w / 4
  {
    var AB := SplitBlock(data, w / 8);
    var ab := DecRounds(w, S, AB.0, AB.1, R);
    WidthBytes(w);
    ToLE(Mask(ab.0 - S[0], w), w / 8) + ToLE(Mask(ab.1 - S[1], w), w / 8)
  }

  /**
   * The half-round step of `decryptBlock` undoes that of `encryptBlock`:
   * subtracting the key word and rotating right by the same amount gives
   * back the word that was rotated left and keyed.
   */
  lemma UnmixWord(w: nat, x: nat, s: int, r: int)
    requires w > 0 && x < Pow2(w)
    ensures Rshift(w, Mask(Lshift(w, x, r) + s, w) - s, r) == x
  {
    hide *;
    var L := Lshift(w, x, r);
    var v := Mask(L + s, w) - s;
    calc {
      Rshift(w, v, r);
      { RshiftResidue(w, v, r); }
      Rshift(w, Mask(v, w), r);
      { MaskAddSub(L, s, w); }
      Rshift(w, L, r);
      { RshiftLshift(w, x, r); }
      Mask(x, w);
      { MaskSmall(x, w); }
      x;
    }
  }

  /**
   * One line of `decryptBlock`'s loop undoes the matching line of
   * `encryptBlock`'s: `x` xored with `y`, rotated left by `y` and keyed with
   * `K` comes back as `x` once `K` is subtracted, the result rotated right by
   * `y` and xored with `y` again.
   */
  lemma UnmixLine(w: nat, x: nat, y: nat, K: int)
    requires w > 0 && x < Pow2(w) && y < Pow2(w)
    ensures Xor(Rshift(w, Mask(Lshift(w, Xor(x, y), y) + K, w) - K, y), y) == x
    ensures Xor(Rshift(w, Mask(Lshift(w, Xor(y, x), y) + K, w) - K, y), y) == x
  {
    hide *;
    XorBound(x, y, w);
    XorComm(x, y);
    UnmixWord(w, Xor(x, y), K, y);
    XorCancel(x, y);
  }

  /** Decryption round `i` undoes encryption round `i` on `w`-bit words. */
  lemma RoundInverse(w: nat, S: seq<nat>, i: nat, A: nat, B: nat)
    requires w > 0 && |S| >= 2 * i + 2
    requires A < Pow2(w) && B < Pow2(w)
    ensures var ab := EncRound(w, S, i, A, B); DecRound(w, S, i, ab.0, ab.1) == (A, B)
  {
    hide Lshift, Rshift, Mask, Xor;
    var a := Mask(Lshift(w, Xor(A, B), B) + S[2 * i], w);
    UnmixLine(w, B, a, S[2 * i + 1]);
    UnmixLine(w, A, B, S[2 * i]);
  }

  /** Undoing rounds `n` down to 1 of what rounds 1 to `n` produced gives the words back. */
  lemma {:induction false} DecRoundsEncRounds(w: nat, S: seq<nat>, A: nat, B: nat, n: nat)
    requires w > 0 && |S| >= 2 * n + 2
    requires A < Pow2(w) && B < Pow2(w)
    ensures var ab := EncRounds(w, S, A, B, n); DecRounds(w, S, ab.0, ab.1, n) == (A, B)
    decreases n
  {
    hide EncRound, DecRound, Mask, Xor, Lshift, Rshift;
    if n > 0 {
      var ab := EncRounds(w, S, A, B, n - 1);
      RoundInverse(w, S, n, ab.0, ab.1);
      DecRoundsEncRounds(w, S, A, B, n - 1);
    }
  }

  /** Both words of a `2 * w8`-byte block, and the block is their little-endian serialisation. */
  lemma SplitBlockJoin(data: seq<byte>, w8: nat)
    requires |data| == 2 * w8
    ensures SplitBlock(data, w8).0 < Pow2(8 * w8) && SplitBlock(data, w8).1 < Pow2(8 * w8)
    ensures ToLE(SplitBlock(data, w8).0, w8) + ToLE(SplitBlock(data, w8).1, w8) == data
  {
    hide FromLE, ToLE;
    ToLEFromLE(data[..w8]);
    ToLEFromLE(data[w8..]);
    assert data[..w8] + data[w8..] == data;
  }

  /** Reading the two words back out of their serialisation. */
  lemma SplitJoin(a: nat, b: nat, w8: nat)
    requires a < Pow2(8 * w8) && b < Pow2(8 * w8)
    ensures SplitBlock(ToLE(a, w8) + ToLE(b, w8), w8) == (a, b)
  {
    var data := ToLE(a, w8) + ToLE(b, w8);
    assert data[..w8] == ToLE(a, w8);
    assert data[w8..] == ToLE(b, w8);
    FromLEToLE(a, w8);
    FromLEToLE(b, w8);
  }

  /** For every block of `2 * w / 8` bytes, `decryptBlock(encryptBlock(x)) == x`. */
  lemma DecryptEncryptBlock(w: nat, R: nat, S: seq<nat>, data: seq<byte>)
    requires SupportedWidth(w) && |S| >= 2 * R + 2
    requires |data| == w / 4
    ensures DecryptBlock(w, R, S, EncryptBlock(w, R, S, data)) == data
  {
    hide EncRounds, DecRounds, Mask, FromLE, ToLE, Pow2, Xor, Lshift, Rshift, EncRound, DecRound;
    WidthBytes(w);
    var w8 := w / 8;
    var AB := SplitBlock(data, w8);
    SplitBlockJoin(data, w8);
    var a0, b0 := Mask(AB.0 + S[0], w), Mask(AB.1 + S[1], w);
    var ab := EncRounds(w, S, a0, b0, R);
    SplitJoin(ab.0, ab.1, w8);
    DecRoundsEncRounds(w, S, a0, b0, R);
    MaskAddSub(AB.0, S[0], w);
    MaskAddSub(AB.1, S[1], w);
  }

  /** A short chunk reads as the same two words as its zero-padded form. */
  lemma SplitBlockZeros(data: seq<byte>, w8: nat)
    requires |data| <= 2 * w8
    ensures SplitBlock(data + Zeros(2 * w8 - |data|), w8) == SplitBlock(data, w8)
  {
    var p := data + Zeros(2 * w8 - |data|);
    if |data| <= w8 {
      assert p[..w8] == data + Zeros(w8 - |data|);
      assert p[w8..] == [] + Zeros(w8);
      assert data[|data|..] == [] && data[..|data|] == data;
      FromLEZeros(data, w8 - |data|);
      FromLEZeros([], w8);
      assert FromLE([]) == 0;
      assert SplitBlock(data, w8) == (FromLE(data), 0);
    } else {
      assert p[..w8] == data[..w8];
      assert p[w8..] == data[w8..] + Zeros(2 * w8 - |data|);
      FromLEZeros(data[w8..], 2 * w8 - |data|);
    }
  }

  /**
   * `encryptBlock` of a short final chunk equals `encryptBlock` of that
   * chunk right-padded with zero bytes to a full block, because missing
   * high-order bytes read as zero.
   */
  lemma EncryptShortBlock(w: nat, R: nat, S: seq<nat>, data: seq<byte>)
    requires SupportedWidth(w) && |S| >= 2 * R + 2
    requires |data| <= w / 4
    ensures EncryptBlock(w, R, S, data) == EncryptBlock(w, R, S, data + Zeros(w / 4 - |data|))
  {
    hide EncRounds, FromLE, ToLE, Pow2, Mask;
    WidthBytes(w);
    SplitBlockZeros(data, w / 8);
  }

  // ---------------------------------------------------------------------
  // Byte buffers (`encryptBytes`, `decryptBytes`)
  // ---------------------------------------------------------------------

  /** `encryptBytes`: one `encryptBlock` per `w/4`-byte chunk; a short or empty last chunk is encrypted as it is. */
  function EncryptBytes(w: nat, R: nat, S: seq<nat>, data: seq<byte>): (r: seq<byte>)
    requires SupportedWidth(w) && |S| >= 2 * R + 2
    decreases |data|
  {
    if |data| <= w / 4 then EncryptBlock(w, R, S, data)
    else EncryptBlock(w, R, S, data[..w / 4]) + EncryptBytes(w, R, S, data[w / 4..])
  }

  /** `decryptBytes`' loop before the final strip: one `decryptBlock` per `w/4`-byte chunk. */
  function DecryptChunks(w: nat, R: nat, S: seq<nat>, data: seq<byte>): (r: seq<byte>)
    requires SupportedWidth(w) && |S| >= 2 * R + 2
    decreases |data|
  {
    if |data| <= w / 4 then DecryptBlock(w, R, S, data)
    else DecryptBlock(w, R, S, data[..w / 4]) + DecryptChunks(w, R, S, data[w / 4..])
  }

  /**
   * `bytes.rstrip(b'\x00')`: the longest prefix of `s` that does not end in
   * a zero byte; everything removed is zero bytes.
   */
  function RStripZeros(s: seq<byte>): (r: seq<byte>)
    ensures |r| <= |s| && r == s[..|r|]
    ensures |r| > 0 ==> r[|r| - 1] != 0
    ensures forall k :: |r| <= k < |s| ==> s[k] == 0
  {
    if |s| > 0 && s[|s| - 1] == 0 then RStripZeros(s[..|s| - 1]) else s
  }

  /** `EncryptBytes` one chunk at a time. */
  lemma EncryptBytesStep(w: nat, R: nat, S: seq<nat>, data: seq<byte>)
    requires SupportedWidth(w) && |S| >= 2 * R + 2
    ensures |data| <= w / 4 ==> EncryptBytes(w, R, S, data) == EncryptBlock(w, R, S, data)
    ensures |data| > w / 4 ==>
      EncryptBytes(w, R, S, data) == EncryptBlock(w, R, S, data[..w / 4]) + EncryptBytes(w, R, S, data[w / 4..])
  {
  }

  /** `DecryptChunks` one chunk at a time. */
  lemma DecryptChunksStep(w: nat, R: nat, S: seq<nat>, data: seq<byte>)
    requires SupportedWidth(w) && |S| >= 2 * R + 2
    ensures |data| <= w / 4 ==> DecryptChunks(w, R, S, data) == DecryptBlock(w, R, S, data)
    ensures |data| > w / 4 ==>
      DecryptChunks(w, R, S, data) == DecryptBlock(w, R, S, data[..w / 4]) + DecryptChunks(w, R, S, data[w / 4..])
  {
  }

  /** `decryptBytes`: the decrypted chunks with trailing zero bytes removed, whatever `strip_extra_nulls` says. */
  function DecryptBytes(w: nat, R: nat, S: seq<nat>, data: seq<byte>): seq<byte>
    requires SupportedWidth(w) && |S| >= 2 * R + 2
  {
    RStripZeros(DecryptChunks(w, R, S, data))
  }

  /** The number of bytes `encryptBytes` produces: one block per started chunk, and one block for empty input. */
  function CipherLength(n: nat, w4: nat): nat
    requires w4 > 0
  {
    w4 * Max(1, (n + w4 - 1) / w4)
  }

  /** `encryptBytes(m)` returns `(w/4) * max(1, ceil(len(m) / (w/4)))` bytes. */
  lemma {:induction false} EncryptBytesLength(w: nat, R: nat, S: seq<nat>, data: seq<byte>)
    requires SupportedWidth(w) && |S| >= 2 * R + 2
    ensures |EncryptBytes(w, R, S, data)| == CipherLength(|data|, w / 4)
    decreases |data|
  {
    hide EncryptBlock, CipherLength;
    WidthBytes(w);
    var w4 := w / 4;
    if |data| <= w4 {
      CipherLengthOne(|data|, w4);
    } else {
      EncryptBytesLength(w, R, S, data[w4..]);
      CipherLengthNext(|data| - w4, w4);
    }
  }

  /** Input of at most one chunk, including none, gives one block. */
  lemma CipherLengthOne(n: nat, w4: nat)
    requires 0 < w4 && n <= w4
    ensures CipherLength(n, w4) == w4
  {
    if n == 0 {
      DivModUnique(w4 - 1, w4, 0, w4 - 1);
    } else {
      DivModUnique(n + w4 - 1, w4, 1, n - 1);
    }
  }

  /** One more full chunk in front gives one more block. */
  lemma CipherLengthNext(n: nat, w4: nat)
    requires 0 < w4 && 0 < n
    ensures CipherLength(n + w4, w4) == w4 + CipherLength(n, w4)
  {
    ModAddMultiple(n + w4 - 1, 1, w4);
    DivModUnique(w4, w4, 1, 0);
    DivMono(w4, n + w4 - 1, w4);
    var q := (n + w4 - 1) / w4;
    assert w4 * (q + 1) == w4 + w4 * q;
  }

  lemma DivMono(x: int, y: int, d: int)
    requires 0 <= x <= y && d > 0
    ensures x / d <= y / d
  {
    if x / d > y / d {
      MulLeMono(y / d + 1, x / d, d);
      assert false;
    }
  }

  /**
   * Decrypting the chunks of `encryptBytes(m)` gives `m` followed by the
   * zero bytes that filled its last chunk.
   */
  lemma {:induction false} DecryptChunksEncrypt(w: nat, R: nat, S: seq<nat>, data: seq<byte>)
    requires SupportedWidth(w) && |S| >= 2 * R + 2
    ensures |EncryptBytes(w, R, S, data)| >= |data|
    ensures DecryptChunks(w, R, S, EncryptBytes(w, R, S, data))
         == data + Zeros(|EncryptBytes(w, R, S, data)| - |data|)
    decreases |data|
  {
    hide EncryptBlock, DecryptBlock, CipherLength;
    WidthBytes(w);
    var w4 := w / 4;
    if |data| <= w4 {
      var p := data + Zeros(w4 - |data|);
      EncryptShortBlock(w, R, S, data);
      DecryptEncryptBlock(w, R, S, p);
    } else {
      var head := EncryptBlock(w, R, S, data[..w4]);
      var tail := EncryptBytes(w, R, S, data[w4..]);
      DecryptChunksEncrypt(w, R, S, data[w4..]);
      EncryptBytesLength(w, R, S, data[w4..]);
      assert |tail| >= w4;
      assert (head + tail)[..w4] == head;
      assert (head + tail)[w4..] == tail;
      DecryptEncryptBlock(w, R, S, data[..w4]);
      assert data[..w4] + (data[w4..] + Zeros(|tail| - |data[w4..]|))
          == data + Zeros(|head + tail| - |data|);
    }
  }

  /** Trailing zero bytes make no difference to `rstrip`. */
  lemma {:induction false} RStripZerosAppend(s: seq<byte>, n: nat)
    ensures RStripZeros(s + Zeros(n)) == RStripZeros(s)
    decreases n
  {
    if n > 0 {
      assert (s + Zeros(n))[..|s + Zeros(n)| - 1] == s + Zeros(n - 1);
      RStripZerosAppend(s, n - 1);
    } else {
      assert s + Zeros(0) == s;
    }
  }

  /** `rstrip` leaves a byte string unchanged exactly when it is empty or does not end in a zero byte. */
  lemma RStripZerosUnchanged(s: seq<byte>)
    ensures RStripZeros(s) == s <==> (|s| == 0 || s[|s| - 1] != 0)
  {
  }

  /**
   * `decryptBytes(encryptBytes(m))` is `m` without its trailing zero bytes,
   * so it is `m` exactly when `m` does not end in a zero byte.
   */
  lemma DecryptEncryptBytes(w: nat, R: nat, S: seq<nat>, data: seq<byte>)
    requires SupportedWidth(w) && |S| >= 2 * R + 2
    ensures DecryptBytes(w, R, S, EncryptBytes(w, R, S, data)) == RStripZeros(data)
    ensures DecryptBytes(w, R, S, EncryptBytes(w, R, S, data)) == data
        <==> (|data| == 0 || data[|data| - 1] != 0)
  {
    hide EncryptBytes, DecryptChunks;
    DecryptChunksEncrypt(w, R, S, data);
    RStripZerosAppend(data, |EncryptBytes(w, R, S, data)| - |data|);
    RStripZerosUnchanged(data);
  }
}
