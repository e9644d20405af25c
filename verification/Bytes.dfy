/** Byte strings as numbers. */
module Bytes {
  import opened ModArith

  type Byte = b: int | 0 <= b < 256

  /** `value & 0xff`. */
  function LowByte(value: nat): Byte {
    var low: int := value % 256;
    low
  }

  function Power256(n: nat): nat {
    if n == 0 then 1 else 256 * Power256(n - 1)
  }

  lemma {:induction false} Power256Add(j: nat, k: nat)
    ensures Power256(j + k) == Power256(j) * Power256(k)
  {
    if j == 0 {
    } else {
      Power256Add(j - 1, k);
    }
  }

  /** `bytesToBigInt`: the bytes read as one big-endian number. */
  function BigEndian(bytes: seq<Byte>): nat {
    if |bytes| == 0 then 0 else 256 * BigEndian(bytes[..|bytes| - 1]) + bytes[|bytes| - 1]
  }

  /** `bigIntToBytes` for a value that fits the length. */
  function ToBytes(value: nat, length: nat): (bytes: seq<Byte>)
    ensures |bytes| == length
  {
    if length == 0 then [] else ToBytes(value / 256, length - 1) + [LowByte(value)]
  }

  lemma {:induction false} BytesRoundTrip(value: nat, length: nat)
    requires value < Power256(length)
    ensures BigEndian(ToBytes(value, length)) == value
  {
    if length == 0 {
    } else {
      BytesRoundTrip(value / 256, length - 1);
      var b := ToBytes(value, length);
      assert b[..length - 1] == ToBytes(value / 256, length - 1);
    }
  }
}
