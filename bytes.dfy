/** Bytes, little-endian integers and the two `struct.pack` formats the
    display protocol uses ('<H' and '<I'), including their range errors. */
module Bytes {

  type byte = x: int | 0 <= x < 256

  /** The error `struct.pack` raises when a value does not fit its format. */
  datatype PackError = OutOfRange(format: char, value: nat)

  datatype Result<T> = Ok(value: T) | Err(error: PackError)

  /** Reads a little-endian unsigned integer of any width. */
  function DecodeLe(bs: seq<byte>): nat
  {
    if bs == [] then 0 else bs[0] + 256 * DecodeLe(bs[1..])
  }

  /** `struct.pack('<H', v)`: two bytes, low byte first; fails above 65535. */
  function PackU16(v: nat): (r: Result<seq<byte>>)
    ensures r.Ok? <==> v < 0x1_0000
    ensures r.Ok? ==> |r.value| == 2 && DecodeLe(r.value) == v
    ensures r.Err? ==> r.error == OutOfRange('H', v)
  {
    if v < 0x1_0000 then
      var bs: seq<byte> := [v % 256, v / 256];
      assert DecodeLe(bs[1..]) == v / 256 by { assert bs[1..][1..] == []; }
      Ok(bs)
    else
      Err(OutOfRange('H', v))
  }

  /** `struct.pack('<I', v)`: four bytes, low byte first; fails at 2^32 and above. */
  function PackU32(v: nat): (r: Result<seq<byte>>)
    ensures r.Ok? <==> v < 0x1_0000_0000
    ensures r.Ok? ==> |r.value| == 4 && DecodeLe(r.value) == v
    ensures r.Err? ==> r.error == OutOfRange('I', v)
  {
    if v < 0x1_0000_0000 then
      var q1 := v / 256;
      var q2 := q1 / 256;
      var q3 := q2 / 256;
      var bs: seq<byte> := [v % 256, q1 % 256, q2 % 256, q3];
      assert DecodeLe(bs[3..]) == q3 by { assert bs[3..][1..] == []; }
      assert DecodeLe(bs[2..]) == q2 by { assert bs[2..][1..] == bs[3..]; }
      assert DecodeLe(bs[1..]) == q1 by { assert bs[1..][1..] == bs[2..]; }
      Ok(bs)
    else
      Err(OutOfRange('I', v))
  }
}
