/**
 * How `RC6Encryption` in `Server/Encryption/RC6.py` turns bytes into 32-bit
 * words and back: `get_blocks` builds, for every group of four bytes, a
 * binary string with the last byte first and reads it with `int(s, 2)`;
 * `blocks_to_data` writes each word as four little-endian bytes; and
 * `enumerate_blocks` cuts the words into blocks of four.
 */
module RC6Words {
  import opened Bits
  import opened LittleEndian
  import opened Results

  /** `2 ** 32`: the words of RC6 as the class uses it are 32-bit. */
  const WordModulus: nat := 0x1_0000_0000

  /** Four words `(a, b, c, d)`, the unit `encrypt` and `decrypt` work on. */
  datatype Block = Block(a: nat, b: nat, c: nat, d: nat)

  predicate BlockBelow(blk: Block, m: nat)
  {
    blk.a < m && blk.b < m && blk.c < m && blk.d < m
  }

  predicate AllBelow(ws: seq<nat>, m: nat)
  {
    forall k :: 0 <= k < |ws| ==> ws[k] < m
  }

  // ---------------------------------------------------------------------
  // Binary strings (`f"{char:0>8b}"` and `int(s, 2)`)
  // ---------------------------------------------------------------------

  /** The low `n` bits of `x` as `'0'`/`'1'` characters, most significant first. */
  function BinDigits(x: nat, n: nat): (s: string)
    ensures |s| == n
  {
    if n == 0 then [] else BinDigits(x / 2, n - 1) + [if x % 2 == 1 then '1' else '0']
  }

  predicate IsBinary(s: string)
  {
    forall k :: 0 <= k < |s| ==> s[k] == '0' || s[k] == '1'
  }

  /** The number a string of binary digits denotes, most significant first. */
  function BinValue(s: string): nat
    decreases |s|
  {
    if |s| == 0 then 0 else 2 * BinValue(s[..|s| - 1]) + (if s[|s| - 1] == '1' then 1 else 0)
  }

  /**
   * `int(s, 2)` on the strings `get_blocks` builds, which hold only binary
   * digits: the empty string raises `ValueError`. Other strings never reach
   * it and are rejected here as well.
   */
  function BaseTwo(s: string): (r: Result<nat>)
    ensures r.Success? <==> |s| > 0 && IsBinary(s)
  {
    if |s| == 0 || !IsBinary(s) then Failure(ValueError) else Success(BinValue(s))
  }

  /**
   * The string `get_blocks` accumulates for a group of bytes: each byte's
   * eight digits are put in front of what is there, so the last byte comes first.
   */
  function BinLE(g: seq<byte>): (s: string)
    ensures |s| == 8 * |g|
  {
    if |g| == 0 then [] else BinDigits(g[|g| - 1], 8) + BinLE(g[..|g| - 1])
  }

  lemma {:induction false} BinDigitsValue(x: nat, n: nat)
    ensures IsBinary(BinDigits(x, n))
    ensures BinValue(BinDigits(x, n)) == Mask(x, n)
  {
    if n > 0 {
      BinDigitsValue(x / 2, n - 1);
      var s := BinDigits(x, n);
      assert s[..n - 1] == BinDigits(x / 2, n - 1);
    }
  }

  /** One unfolding of `BinValue`: the last digit and the value of the rest. */
  lemma BinValueLast(s: string)
    ensures |s| == 0 ==> BinValue(s) == 0
    ensures |s| > 0 ==> BinValue(s) == 2 * BinValue(s[..|s| - 1]) + (if s[|s| - 1] == '1' then 1 else 0)
  {
  }

  lemma {:induction false} BinValueAppend(a: string, b: string)
    ensures BinValue(a + b) == BinValue(a) * Pow2(|b|) + BinValue(b)
    decreases |b|
  {
    hide BinValue;
    if |b| > 0 {
      var b' := b[..|b| - 1];
      assert (a + b)[..|a + b| - 1] == a + b';
      assert (a + b)[|a + b| - 1] == b[|b| - 1];
      BinValueLast(a + b);
      BinValueLast(b);
      BinValueAppend(a, b');
      var P := Pow2(|b'|);
      assert Pow2(|b|) == 2 * P;
      assert 2 * (BinValue(a) * P) == BinValue(a) * (2 * P);
    } else {
      assert a + b == a;
      BinValueLast(b);
    }
  }

  lemma {:induction false} BinaryAppend(a: string, b: string)
    requires IsBinary(a) && IsBinary(b)
    ensures IsBinary(a + b)
  {
    assert forall k :: 0 <= k < |a + b| ==> (a + b)[k] == (if k < |a| then a[k] else b[k - |a|]);
  }

  /** The string of a non-empty group: its last byte's digits, then the rest. */
  lemma BinLELast(g: seq<byte>)
    requires |g| > 0
    ensures BinLE(g) == BinDigits(g[|g| - 1], 8) + BinLE(g[..|g| - 1])
  {
  }

  /** The string built for a group is binary and `int(s, 2)` reads it as the group's little-endian value. */
  lemma {:induction false} BinLEValue(g: seq<byte>)
    ensures IsBinary(BinLE(g))
    ensures BinValue(BinLE(g)) == FromLE(g)
    decreases |g|
  {
    BinLEBinary(g);
    if |g| > 0 {
      hide BinValue, BinDigits, FromLE, Pow2, Mask, IsBinary, BinLE;
      var n := |g| - 1;
      var x := g[n];
      var digits, rest := BinDigits(x, 8), BinLE(g[..n]);
      var P := Pow2(8 * n);
      BinLELast(g);
      BinLEValue(g[..n]);
      assert BinValue(digits) == x by {
        BinDigitsValue(x, 8);
        Pow2Byte();
        MaskSmall(x, 8);
      }
      BinValueAppend(digits, rest);
      assert BinValue(BinLE(g)) == x * P + FromLE(g[..n]);
      assert g == g[..n] + [x];
      FromLEAppend(g[..n], x);
      assert FromLE(g) == FromLE(g[..n]) + x * P;
    }
  }

  /** The string of a group holds only binary digits. */
  lemma {:induction false} BinLEBinary(g: seq<byte>)
    ensures IsBinary(BinLE(g))
    decreases |g|
  {
    if |g| > 0 {
      var n := |g| - 1;
      BinLELast(g);
      BinLEBinary(g[..n]);
      BinDigitsValue(g[n], 8);
      BinaryAppend(BinDigits(g[n], 8), BinLE(g[..n]));
    }
  }

  /** Prepending one more byte's digits: what `get_blocks` does for each byte. */
  lemma BinLEPrepend(g: seq<byte>, x: byte)
    ensures BinLE(g + [x]) == BinDigits(x, 8) + BinLE(g)
  {
    assert (g + [x])[..|g|] == g;
  }

  // ---------------------------------------------------------------------
  // get_blocks
  // ---------------------------------------------------------------------

  /** The number of groups of at most four bytes that `n` bytes make. */
  function GroupCount(n: nat): nat
  {
    (n + 3) / 4
  }

  /** A byte count past `4g` has more than `g` groups, and exactly `g + 1` when it is at most `4g + 4`. */
  lemma GroupCountBounds(n: nat, g: nat)
    requires 4 * g < n
    ensures g < GroupCount(n)
    ensures n <= 4 * g + 4 ==> GroupCount(n) == g + 1
  {
    if n <= 4 * g + 4 {
      DivModUnique(n + 3, 4, g + 1, n - 1 - 4 * g);
    } else {
      DivModUnique(n + 3, 4, (n + 3) / 4, (n + 3) % 4);
    }
  }

  /** Group `k`: bytes `4k .. 4k+3`, or fewer for the last group. */
  function Group(data: seq<byte>, k: nat): (g: seq<byte>)
    requires k < GroupCount(|data|)
    ensures 0 < |g| <= 4
  {
    data[4 * k .. if 4 * k + 4 <= |data| then 4 * k + 4 else |data|]
  }

  /** The binary strings `get_blocks` returns. */
  function BinaryGroups(data: seq<byte>): (r: seq<string>)
    ensures |r| == GroupCount(|data|)
  {
    seq(GroupCount(|data|), k requires 0 <= k < GroupCount(|data|) => BinLE(Group(data, k)))
  }

  /** The integer words `get_blocks` returns: the little-endian value of each group. */
  function Groups(data: seq<byte>): (r: seq<nat>)
    ensures |r| == GroupCount(|data|)
  {
    seq(GroupCount(|data|), k requires 0 <= k < GroupCount(|data|) => FromLE(Group(data, k)))
  }

  /** `get_blocks(data)`: both lists; empty data raises `ValueError` from `int('', 2)`. */
  function GetBlocks(data: seq<byte>): Result<(seq<string>, seq<nat>)>
  {
    if |data| == 0 then Failure(ValueError) else Success((BinaryGroups(data), Groups(data)))
  }

  /** `int(s, 2)` of each string `get_blocks` builds is the corresponding integer word, and every word has 32 bits. */
  lemma GroupsAgree(data: seq<byte>)
    ensures forall k :: 0 <= k < GroupCount(|data|) ==>
      BaseTwo(BinaryGroups(data)[k]) == Success(Groups(data)[k])
    ensures AllBelow(Groups(data), WordModulus)
  {
    Pow2Values();
    forall k | 0 <= k < GroupCount(|data|)
      ensures BaseTwo(BinaryGroups(data)[k]) == Success(Groups(data)[k])
      ensures Groups(data)[k] < WordModulus
    {
      var g := Group(data, k);
      BinLEValue(g);
      FromLEBound(g);
      Pow2Le(8 * |g|, 32);
    }
  }

  /**
   * Closing group `g` of `get_blocks` at byte `e` (after four bytes, or at
   * the end of the data): its string parses to word `g`, and both lists
   * grow by one.
   */
  lemma CloseGroup(data: seq<byte>, g: nat, e: nat)
    requires 4 * g < e <= |data| && (e == 4 * g + 4 || (e == |data| && e < 4 * g + 4))
    ensures g < GroupCount(|data|)
    ensures e == |data| ==> GroupCount(|data|) == g + 1
    ensures BaseTwo(BinLE(data[4 * g .. e])) == Success(Groups(data)[g])
    ensures BinaryGroups(data)[..g + 1] == BinaryGroups(data)[..g] + [BinLE(data[4 * g .. e])]
    ensures Groups(data)[..g + 1] == Groups(data)[..g] + [Groups(data)[g]]
  {
    GroupCountBounds(|data|, g);
    assert Group(data, g) == data[4 * g .. e];
    GroupsAgree(data);
  }

  // ---------------------------------------------------------------------
  // blocks_to_data
  // ---------------------------------------------------------------------

  /** The bytes of words that all fit in 32 bits, four little-endian bytes each. */
  function WordsToBytes(ws: seq<nat>): (r: seq<byte>)
    requires AllBelow(ws, WordModulus)
    ensures |r| == 4 * |ws|
  {
    Pow2Values();
    if |ws| == 0 then [] else WordsToBytes(ws[..|ws| - 1]) + ToLE(ws[|ws| - 1], 4)
  }

  /** `blocks_to_data(ws)`: `int.to_bytes(w, 4, 'little')` raises `OverflowError` for a word of 2^32 or more. */
  function BlocksToData(ws: seq<nat>): (r: Result<seq<byte>>)
    ensures r.Success? <==> AllBelow(ws, WordModulus)
  {
    if AllBelow(ws, WordModulus) then Success(WordsToBytes(ws)) else Failure(OverflowError)
  }

  /** Byte `4k + r` of the output is byte `r` of word `k`. */
  lemma {:induction false} WordsToBytesAt(ws: seq<nat>, k: nat)
    requires AllBelow(ws, WordModulus) && k < |ws|
    ensures Pow2(32) == WordModulus
    ensures WordsToBytes(ws)[4 * k .. 4 * k + 4] == ToLE(ws[k], 4)
    decreases |ws|
  {
    hide ToLE, Pow2;
    Pow2Values();
    var n := |ws| - 1;
    if k < n {
      WordsToBytesAt(ws[..n], k);
    }
  }

  /** Bytes `a .. b` of the slice `i .. j` are bytes `i + a .. i + b` of the whole. */
  lemma SliceOfSlice(s: seq<byte>, i: nat, j: nat, a: nat, b: nat)
    requires i <= j <= |s| && a <= b <= j - i
    ensures s[i..j][a..b] == s[i + a .. i + b]
  {
    var lhs, rhs := s[i..j][a..b], s[i + a .. i + b];
    forall t | 0 <= t < b - a
      ensures lhs[t] == rhs[t]
    {
      assert lhs[t] == s[i + a + t];
    }
  }

  /** A slice of words below `m` is below `m`. */
  lemma AllBelowSlice(ws: seq<nat>, m: nat, i: nat, j: nat)
    requires AllBelow(ws, m) && i <= j <= |ws|
    ensures AllBelow(ws[i..j], m)
  {
  }

  /** Writing the words of `a + b` writes those of `a`, then those of `b`. */
  lemma {:induction false} WordsToBytesAppend(a: seq<nat>, b: seq<nat>)
    requires AllBelow(a, WordModulus) && AllBelow(b, WordModulus)
    ensures AllBelow(a + b, WordModulus)
    ensures WordsToBytes(a + b) == WordsToBytes(a) + WordsToBytes(b)
    decreases |b|
  {
    if |b| == 0 {
      assert a + b == a;
    } else {
      var n := |b| - 1;
      WordsToBytesAppend(a, b[..n]);
      assert (a + b)[..|a + b| - 1] == a + b[..n];
    }
  }

  /** `get_blocks(blocks_to_data(ws))` gives back `ws` for any non-empty list of 32-bit words. */
  lemma GroupsOfWordsToBytes(ws: seq<nat>)
    requires AllBelow(ws, WordModulus)
    ensures Groups(WordsToBytes(ws)) == ws
  {
    var d := WordsToBytes(ws);
    forall k | 0 <= k < |ws|
      ensures Groups(d)[k] == ws[k]
    {
      WordsToBytesAt(ws, k);
      assert Group(d, k) == ToLE(ws[k], 4);
      FromLEToLE(ws[k], 4);
    }
  }

  /** `blocks_to_data(get_blocks(d)[1]) == d` when `d` is a non-empty whole number of words. */
  lemma WordsToBytesOfGroups(data: seq<byte>)
    requires |data| % 4 == 0
    ensures AllBelow(Groups(data), WordModulus)
    ensures WordsToBytes(Groups(data)) == data
  {
    hide WordsToBytes, FromLE, ToLE, BinLE;
    GroupsAgree(data);
    var ws := Groups(data);
    var d := WordsToBytes(ws);
    forall j | 0 <= j < |data|
      ensures d[j] == data[j]
    {
      var k := j / 4;
      assert 4 * k + 4 <= |data|;
      WordsToBytesAt(ws, k);
      var g := Group(data, k);
      assert |g| == 4 && ws[k] == FromLE(g);
      ToLEFromLE(g);
      assert d[j] == d[4 * k .. 4 * k + 4][j - 4 * k];
    }
  }

  // ---------------------------------------------------------------------
  // enumerate_blocks
  // ---------------------------------------------------------------------

  /** Words `4k .. 4k+3` as block `k`. */
  function Quads(ws: seq<nat>): (r: seq<Block>)
    requires |ws| % 4 == 0
    ensures |r| == |ws| / 4
  {
    seq(|ws| / 4, k requires 0 <= k < |ws| / 4 => Block(ws[4 * k], ws[4 * k + 1], ws[4 * k + 2], ws[4 * k + 3]))
  }

  /** The words of a list of blocks, in order: what `encrypted.extend(...)` accumulates. */
  function Flatten(bs: seq<Block>): (r: seq<nat>)
    ensures |r| == 4 * |bs|
  {
    if |bs| == 0 then []
    else Flatten(bs[..|bs| - 1]) + [bs[|bs| - 1].a, bs[|bs| - 1].b, bs[|bs| - 1].c, bs[|bs| - 1].d]
  }

  /**
   * `enumerate_blocks(data)`: the integer words of `get_blocks` four at a
   * time; `get_blocks` failing, or a last group of fewer than four words
   * (`a, b, c, d, *blocks = blocks`), raises `ValueError`.
   */
  function EnumerateBlocks(data: seq<byte>): Result<seq<Block>>
  {
    if |data| == 0 || GroupCount(|data|) % 4 != 0 then Failure(ValueError)
    else Success(Quads(Groups(data)))
  }

  lemma {:induction false} FlattenAt(bs: seq<Block>, k: nat)
    requires k < |bs|
    ensures Flatten(bs)[4 * k] == bs[k].a && Flatten(bs)[4 * k + 1] == bs[k].b
    ensures Flatten(bs)[4 * k + 2] == bs[k].c && Flatten(bs)[4 * k + 3] == bs[k].d
    decreases |bs|
  {
    if k < |bs| - 1 {
      FlattenAt(bs[..|bs| - 1], k);
    }
  }

  /** Cutting the flattened words into blocks gives the blocks back. */
  lemma QuadsFlatten(bs: seq<Block>)
    ensures Quads(Flatten(bs)) == bs
  {
    forall k | 0 <= k < |bs|
      ensures Quads(Flatten(bs))[k] == bs[k]
    {
      FlattenAt(bs, k);
    }
  }

  /** Flattening the blocks of a word list gives the word list back. */
  lemma FlattenQuads(ws: seq<nat>)
    requires |ws| % 4 == 0
    ensures Flatten(Quads(ws)) == ws
  {
    hide Flatten;
    var bs := Quads(ws);
    forall j | 0 <= j < |ws|
      ensures Flatten(bs)[j] == ws[j]
    {
      var k := j / 4;
      FlattenAt(bs, k);
      assert j == 4 * k || j == 4 * k + 1 || j == 4 * k + 2 || j == 4 * k + 3;
    }
  }

  /** Flattened blocks fit in 32 bits when every block does. */
  lemma FlattenBelow(bs: seq<Block>)
    requires forall k :: 0 <= k < |bs| ==> BlockBelow(bs[k], WordModulus)
    ensures AllBelow(Flatten(bs), WordModulus)
  {
    hide Flatten;
    forall j | 0 <= j < 4 * |bs|
      ensures Flatten(bs)[j] < WordModulus
    {
      var k := j / 4;
      FlattenAt(bs, k);
      assert j == 4 * k || j == 4 * k + 1 || j == 4 * k + 2 || j == 4 * k + 3;
    }
  }

  /**
   * Data that is a non-empty whole number of 16-byte blocks enumerates into
   * `|data| / 16` blocks whose words are those of `get_blocks`, and writing
   * those words back gives the data.
   */
  lemma EnumerateWhole(data: seq<byte>)
    requires |data| > 0 && |data| % 16 == 0
    ensures EnumerateBlocks(data).Success?
    ensures |EnumerateBlocks(data).value| == |data| / 16
    ensures Flatten(EnumerateBlocks(data).value) == Groups(data)
    ensures AllBelow(Flatten(EnumerateBlocks(data).value), WordModulus)
    ensures WordsToBytes(Flatten(EnumerateBlocks(data).value)) == data
  {
    hide Flatten, Groups, WordsToBytes, Quads;
    assert GroupCount(|data|) == |data| / 4;
    FlattenQuads(Groups(data));
    GroupsAgree(data);
    WordsToBytesOfGroups(data);
  }

  /** The bytes of a list of 32-bit blocks enumerate back into the same blocks. */
  lemma EnumerateWordsToBytes(bs: seq<Block>)
    requires |bs| > 0
    requires forall k :: 0 <= k < |bs| ==> BlockBelow(bs[k], WordModulus)
    ensures AllBelow(Flatten(bs), WordModulus)
    ensures |WordsToBytes(Flatten(bs))| == 16 * |bs|
    ensures EnumerateBlocks(WordsToBytes(Flatten(bs))) == Success(bs)
  {
    FlattenBelow(bs);
    GroupsOfWordsToBytes(Flatten(bs));
    QuadsFlatten(bs);
  }
}
