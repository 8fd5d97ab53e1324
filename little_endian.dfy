/**
 * Bytes and Python's `int.from_bytes(s, byteorder='little')` /
 * `v.to_bytes(n, byteorder='little')`, which both ciphers use to move
 * between byte strings and words.
 */
module LittleEndian {
  import opened Bits

  type byte = x: nat | x < 256

  /** `n` zero bytes (`b'\x00' * n`). */
  function Zeros(n: nat): (r: seq<byte>)
    ensures |r| == n && forall k :: 0 <= k < n ==> r[k] == 0
  {
    seq(n, _ => 0)
  }

  /** `int.from_bytes(s, byteorder='little')`: the first byte is the least significant. */
  function FromLE(s: seq<byte>): nat
  {
    if |s| == 0 then 0 else s[0] + 256 * FromLE(s[1..])
  }

  /**
   * `v.to_bytes(n, byteorder='little')`; Python raises OverflowError when
   * `v` does not fit in `n` bytes, which the requires excludes.
   */
  function ToLE(v: nat, n: nat): (r: seq<byte>)
    requires v < Pow2(8 * n)
    ensures |r| == n
  {
    if n == 0 then []
    else
      Pow2Byte();
      DivBound(v, 8, 8 * (n - 1));
      [v % 256] + ToLE(v / 256, n - 1)
  }

  /** An `n`-byte string holds a number below `2^(8n)`. */
  lemma {:induction false} FromLEBound(s: seq<byte>)
    ensures FromLE(s) < Pow2(8 * |s|)
  {
    if |s| > 0 {
      FromLEBound(s[1..]);
      Pow2Byte();
      Pow2Add(8, 8 * (|s| - 1));
      MulLeMono(FromLE(s[1..]) + 1, Pow2(8 * (|s| - 1)), 256);
    }
  }

  /** Reading back what `to_bytes` wrote gives the number. */
  lemma {:induction false} FromLEToLE(v: nat, n: nat)
    requires v < Pow2(8 * n)
    ensures FromLE(ToLE(v, n)) == v
  {
    if n > 0 {
      Pow2Byte();
      DivBound(v, 8, 8 * (n - 1));
      FromLEToLE(v / 256, n - 1);
      assert ToLE(v, n)[1..] == ToLE(v / 256, n - 1);
    } else {
      Pow2Byte();
    }
  }

  /** Writing out what `from_bytes` read gives the bytes back. */
  lemma {:induction false} ToLEFromLE(s: seq<byte>)
    ensures FromLE(s) < Pow2(8 * |s|)
    ensures ToLE(FromLE(s), |s|) == s
  {
    FromLEBound(s);
    if |s| > 0 {
      ToLEFromLE(s[1..]);
      var v := FromLE(s);
      DivModUnique(v, 256, FromLE(s[1..]), s[0]);
    }
  }

  /** Missing high-order bytes read as zero: zero bytes at the end do not change the number. */
  lemma {:induction false} FromLEZeros(s: seq<byte>, n: nat)
    ensures FromLE(s + Zeros(n)) == FromLE(s)
    decreases |s| + n
  {
    if |s| > 0 {
      assert (s + Zeros(n))[1..] == s[1..] + Zeros(n);
      FromLEZeros(s[1..], n);
    } else if n > 0 {
      assert (s + Zeros(n))[1..] == [] + Zeros(n - 1);
      FromLEZeros([], n - 1);
    }
  }

  /** Appending a byte adds it at the next significance. */
  lemma {:induction false} FromLEAppend(s: seq<byte>, x: byte)
    ensures FromLE(s + [x]) == FromLE(s) + x * Pow2(8 * |s|)
  {
    if |s| == 0 {
      assert FromLE([x]) == x + 256 * FromLE([]);
    } else {
      assert (s + [x])[1..] == s[1..] + [x];
      FromLEAppend(s[1..], x);
      var P := Pow2(8 * (|s| - 1));
      Pow2Byte();
      Pow2Add(8, 8 * (|s| - 1));
      assert Pow2(8 * |s|) == 256 * P;
      assert 256 * (x * P) == x * (256 * P);
    }
  }
}
