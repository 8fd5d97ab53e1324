/**
 * The PKCS#5/#7 padding of `Server/Encryption/RC6.py` (RFC 5652, section
 * 6.3): `pkcs5_7padding` appends `p` bytes of value `p`, and
 * `remove_pkcs_padding` drops as many bytes as the last byte says, without
 * checking them.
 */
module Pkcs {
  import opened Bits
  import opened LittleEndian
  import opened Results

  /**
   * `pkcs5_7padding(data, size)`: `p = size - len(data) % size` bytes of
   * value `p`. A zero size raises `ZeroDivisionError`; a negative size makes
   * `p` negative and a `p` above 255 does not fit `int.to_bytes()`'s one
   * byte, both raising `OverflowError`.
   */
  function Pad(data: seq<byte>, size: int): (r: Result<seq<byte>>)
    ensures r.Success? <==> 0 < size && size - |data| % size <= 255
  {
    if size == 0 then Failure(ZeroDivisionError)
    else if size < 0 then Failure(OverflowError)
    else
      var p := size - |data| % size;
      if p > 255 then Failure(OverflowError)
      else
        var trailer: seq<byte> := seq(p, _ => p);
        Success(data + trailer)
  }

  /**
   * `remove_pkcs_padding(data)`: `data[:-data[-1]]`. Empty data raises
   * `IndexError`; a last byte of 0 gives `data[:0]`, the empty string; a
   * last byte at least the length also leaves nothing.
   */
  function Unpad(data: seq<byte>): (r: Result<seq<byte>>)
    ensures r.Success? <==> |data| > 0
    ensures r.Success? ==> |r.value| < |data| && r.value == data[..|r.value|]
    ensures r.Success? && 0 < data[|data| - 1] < |data| ==> |r.value| == |data| - data[|data| - 1]
    ensures r.Success? && data[|data| - 1] == 0 ==> r.value == []
    ensures r.Success? && data[|data| - 1] as int >= |data| ==> r.value == []
  {
    if |data| == 0 then Failure(IndexError)
    else
      var n := data[|data| - 1];
      if n == 0 || n >= |data| then Success([]) else Success(data[..|data| - n])
  }

  /**
   * A padded message is its input followed by `p` copies of `p`, where
   * `1 <= p <= size`; its length is a multiple of `size` and strictly
   * greater than the input's, so aligned input grows by a whole block.
   */
  lemma PadShape(data: seq<byte>, size: int)
    requires Pad(data, size).Success?
    ensures var r := Pad(data, size).value; var p := size - |data| % size;
      && 1 <= p <= size
      && |r| == |data| + p && |r| % size == 0 && |r| > |data|
      && r[..|data|] == data
      && (forall k :: |data| <= k < |r| ==> r[k] == p)
      && (|data| % size == 0 ==> |r| == |data| + size)
  {
    RoundUp(|data|, size);
  }

  /** Sixteen-byte padding, the size the cipher modes use, never fails. */
  lemma Pad16(data: seq<byte>)
    ensures Pad(data, 16).Success?
    ensures |Pad(data, 16).value| % 16 == 0 && |Pad(data, 16).value| > |data|
  {
    PadShape(data, 16);
  }

  /** Removing the padding gives back the message. */
  lemma UnpadPad(data: seq<byte>, size: int)
    requires Pad(data, size).Success?
    ensures Unpad(Pad(data, size).value) == Success(data)
  {
    PadShape(data, size);
    var r := Pad(data, size).value;
    assert r[|r| - 1] == size - |data| % size;
  }
}
