/** WLED realtime UDP, protocol 4 ("DNRGB", direct RGB with start index),
    as the receiver applies it to its 32x32 frame. This module states the
    effect of one datagram on the row-major pixel list; the receiver's
    in-place loop is proved against it in module LedReceiver. */
module Wled {
  import opened Bytes

  const Width: nat := 32
  const Height: nat := 32
  const NumPixels: nat := 1024
  /** Bytes `recvfrom` returns per datagram at most; a longer one is cut. */
  const RecvBufferSize: nat := 4096
  /** Byte 0 of a DNRGB datagram. */
  const DnrgbTag: byte := 4

  datatype Rgb = Rgb(r: byte, g: byte, b: byte)

  const Black := Rgb(0, 0, 0)

  /** The receiver handles a datagram iff it has the 4-byte header and tag 4. */
  predicate Accepted(data: seq<byte>)
  {
    |data| >= 4 && data[0] == DnrgbTag
  }

  /** Bytes 2 and 3, big-endian. Byte 1 is not read. */
  function StartIndex(data: seq<byte>): (start: nat)
    requires |data| >= 4
    ensures start < 0x1_0000
    ensures start / 256 == data[2] && start % 256 == data[3]
  {
    data[2] as int * 256 + data[3] as int
  }

  /** Number of complete RGB triples after the header; a trailing partial
      triple is not counted. */
  function LedCount(data: seq<byte>): (n: nat)
    requires |data| >= 4
    ensures 4 + 3 * n <= |data| < 4 + 3 * n + 3
  {
    (|data| - 4) / 3
  }

  /** The `i`-th triple of the payload. */
  function LedAt(data: seq<byte>, i: nat): Rgb
    requires |data| >= 4 && i < LedCount(data)
  {
    Rgb(data[4 + 3 * i], data[5 + 3 * i], data[6 + 3 * i])
  }

  /** Pixel `k` (row-major, `k = y * Width + x`) is written by the datagram. */
  predicate Covers(data: seq<byte>, k: int)
  {
    Accepted(data) && StartIndex(data) <= k < StartIndex(data) + LedCount(data) && k < NumPixels
  }

  /** The value a covered pixel receives. */
  function Written(data: seq<byte>, k: int): Rgb
    requires Covers(data, k)
  {
    LedAt(data, k - StartIndex(data))
  }

  /** Writes triples `i, i+1, ...` in order, stopping at the first index past
      the frame, as the receiver's loop does. */
  function WriteLeds(pixels: seq<Rgb>, data: seq<byte>, i: nat): (r: seq<Rgb>)
    requires Accepted(data) && |pixels| == NumPixels && i <= LedCount(data)
    ensures |r| == NumPixels
    ensures forall k :: 0 <= k < NumPixels ==>
      r[k] == if StartIndex(data) + i <= k && Covers(data, k) then Written(data, k) else pixels[k]
    decreases LedCount(data) - i
  {
    var start := StartIndex(data);
    if i == LedCount(data) || start + i >= NumPixels then pixels
    else WriteLeds(pixels[start + i := LedAt(data, i)], data, i + 1)
  }

  /** The frame after one datagram: covered pixels take the datagram's
      triple, every other pixel keeps its value. */
  function ApplyPacket(pixels: seq<Rgb>, data: seq<byte>): (r: seq<Rgb>)
    requires |pixels| == NumPixels
    ensures |r| == NumPixels
    ensures forall k :: 0 <= k < NumPixels ==>
      r[k] == if Covers(data, k) then Written(data, k) else pixels[k]
  {
    if Accepted(data) then WriteLeds(pixels, data, 0) else pixels
  }

  /** The frame after a sequence of datagrams, applied in arrival order.
      When none is accepted the frame is unchanged, which is why the
      receiver sends nothing then. */
  function ApplyAll(pixels: seq<Rgb>, packets: seq<seq<byte>>): (r: seq<Rgb>)
    requires |pixels| == NumPixels
    ensures |r| == NumPixels
    ensures !AnyAccepted(packets) ==> r == pixels
    decreases |packets|
  {
    if packets == [] then pixels
    else
      var next := ApplyPacket(pixels, packets[0]);
      assert !AnyAccepted(packets) ==> !AnyAccepted(packets[1..]) && next == pixels by {
        if !AnyAccepted(packets) {
          assert !Accepted(packets[0]);
          forall j | 0 <= j < |packets[1..]| ensures !Accepted(packets[1..][j]) {
            assert packets[1..][j] == packets[j + 1];
          }
        }
      }
      ApplyAll(next, packets[1..])
  }

  /** Some datagram of the sequence is accepted. */
  predicate AnyAccepted(packets: seq<seq<byte>>)
  {
    exists j :: 0 <= j < |packets| && Accepted(packets[j])
  }

  /** Draining one more datagram applies it after the ones before. */
  lemma {:induction false} ApplyAllSnoc(pixels: seq<Rgb>, packets: seq<seq<byte>>, data: seq<byte>)
    requires |pixels| == NumPixels
    ensures ApplyAll(pixels, packets + [data]) == ApplyPacket(ApplyAll(pixels, packets), data)
    decreases |packets|
  {
    if packets == [] {
      assert [] + [data] == [data] && [data][1..] == [];
    } else {
      ApplyAllSnoc(ApplyPacket(pixels, packets[0]), packets[1..], data);
      assert (packets + [data])[1..] == packets[1..] + [data];
    }
  }

  lemma AnyAcceptedSnoc(packets: seq<seq<byte>>, data: seq<byte>)
    ensures AnyAccepted(packets + [data]) == (AnyAccepted(packets) || Accepted(data))
  {
    var all := packets + [data];
    if Accepted(data) {
      assert Accepted(all[|packets|]);
    }
    if AnyAccepted(packets) {
      var j :| 0 <= j < |packets| && Accepted(packets[j]);
      assert Accepted(all[j]);
    }
  }

  /** A triple index below `LedCount` never reads past the datagram, so the
      receiver's "incomplete triple" branch is never taken. */
  lemma TripleInBounds(data: seq<byte>, i: nat)
    requires |data| >= 4 && i < LedCount(data)
    ensures 3 * i + 2 < |data| - 4
  {
  }

  /** Every covered pixel lies in the grid: its column is below Width and
      its row below Height, so the receiver's row guard always holds. */
  lemma CoveredInGrid(data: seq<byte>, k: int)
    requires Covers(data, k)
    ensures 0 <= k % Width < Width && 0 <= k / Width < Height
    ensures (k / Width) * Width + k % Width == k
  {
  }

  /** A datagram that is too short or has another tag changes nothing. */
  lemma RejectedLeavesFrame(pixels: seq<Rgb>, data: seq<byte>)
    requires |pixels| == NumPixels && !Accepted(data)
    ensures ApplyPacket(pixels, data) == pixels
  {
  }

  /** An accepted datagram whose start index is past the frame, or which
      carries no complete triple, changes nothing. */
  lemma {:induction false} AcceptedWithoutEffect(pixels: seq<Rgb>, data: seq<byte>)
    requires |pixels| == NumPixels && Accepted(data)
    requires StartIndex(data) >= NumPixels || LedCount(data) == 0
    ensures ApplyPacket(pixels, data) == pixels
  {
    var r := ApplyPacket(pixels, data);
    assert forall k :: 0 <= k < NumPixels ==> !Covers(data, k);
    assert forall k :: 0 <= k < NumPixels ==> r[k] == pixels[k];
  }

  /** Applying the same datagram twice leaves the frame as applying it once. */
  lemma {:induction false} ApplyPacketIdempotent(pixels: seq<Rgb>, data: seq<byte>)
    requires |pixels| == NumPixels
    ensures ApplyPacket(ApplyPacket(pixels, data), data) == ApplyPacket(pixels, data)
  {
    var once := ApplyPacket(pixels, data);
    var twice := ApplyPacket(once, data);
    assert forall k :: 0 <= k < NumPixels ==> twice[k] == once[k];
  }

  /** Byte 1 is reserved: the effect of a datagram does not depend on it. */
  lemma {:induction false} ReservedByteIgnored(pixels: seq<Rgb>, data: seq<byte>, b: byte)
    requires |pixels| == NumPixels && |data| >= 2
    ensures ApplyPacket(pixels, data[1 := b]) == ApplyPacket(pixels, data)
  {
    var d := data[1 := b];
    assert Accepted(d) <==> Accepted(data);
    if Accepted(data) {
      assert StartIndex(d) == StartIndex(data) && LedCount(d) == LedCount(data);
      assert forall i :: 0 <= i < LedCount(data) ==> LedAt(d, i) == LedAt(data, i);
    }
    var r, r' := ApplyPacket(pixels, data), ApplyPacket(pixels, d);
    assert forall k :: 0 <= k < NumPixels ==> r'[k] == r[k];
  }

  /** Cutting a datagram to the 4096 bytes `recvfrom` returns never changes
      its effect: 4096 bytes hold more triples than the frame has pixels. */
  lemma {:induction false} TruncationHarmless(pixels: seq<Rgb>, data: seq<byte>)
    requires |pixels| == NumPixels && |data| > RecvBufferSize
    ensures ApplyPacket(pixels, data[..RecvBufferSize]) == ApplyPacket(pixels, data)
  {
    var cut := data[..RecvBufferSize];
    if Accepted(data) {
      assert StartIndex(cut) == StartIndex(data) && LedCount(cut) >= NumPixels;
      forall k | 0 <= k < NumPixels
        ensures Covers(cut, k) == Covers(data, k)
        ensures Covers(data, k) ==> Written(cut, k) == Written(data, k)
      {
      }
    }
    var r, r' := ApplyPacket(pixels, data), ApplyPacket(pixels, cut);
    assert forall k :: 0 <= k < NumPixels ==> r'[k] == r[k];
  }

  /** A later datagram wins on every pixel it covers; elsewhere the earlier
      datagram's effect shows through. */
  lemma {:induction false} LastWriterWins(pixels: seq<Rgb>, first: seq<byte>, second: seq<byte>, k: nat)
    requires |pixels| == NumPixels && k < NumPixels
    ensures ApplyAll(pixels, [first, second])[k] ==
      if Covers(second, k) then Written(second, k)
      else if Covers(first, k) then Written(first, k)
      else pixels[k]
  {
    var mid := ApplyPacket(pixels, first);
    assert ApplyAll(pixels, [first, second]) == ApplyAll(mid, [second]);
    assert [first, second][1..] == [second] && [second][1..] == [];
  }

  /** Datagram [4,0,0,0, 255,0,0, 0,255,0, 0,0,255] paints pixels (0,0),
      (1,0), (2,0) red, green and blue and leaves the rest. */
  lemma ScenarioThreePixels(pixels: seq<Rgb>)
    requires |pixels| == NumPixels
    ensures var r := ApplyPacket(pixels, [4, 0, 0, 0, 255, 0, 0, 0, 255, 0, 0, 0, 255]);
      r[0] == Rgb(255, 0, 0) && r[1] == Rgb(0, 255, 0) && r[2] == Rgb(0, 0, 255)
      && r[3..] == pixels[3..]
  {
    var d: seq<byte> := [4, 0, 0, 0, 255, 0, 0, 0, 255, 0, 0, 0, 255];
    var r := ApplyPacket(pixels, d);
    assert StartIndex(d) == 0 && LedCount(d) == 3;
    assert forall k :: 3 <= k < NumPixels ==> r[k] == pixels[k];
  }

  /** A datagram starting at index 1023 with two triples updates only pixel
      (31,31); the second triple would land at 1024 and is dropped. */
  lemma ScenarioLastPixel(pixels: seq<Rgb>, c1: Rgb, c2: Rgb)
    requires |pixels| == NumPixels
    ensures var r := ApplyPacket(pixels, [4, 0, 3, 255, c1.r, c1.g, c1.b, c2.r, c2.g, c2.b]);
      r[31 * Width + 31] == c1 && r[..1023] == pixels[..1023]
  {
    var d: seq<byte> := [4, 0, 3, 255, c1.r, c1.g, c1.b, c2.r, c2.g, c2.b];
    var r := ApplyPacket(pixels, d);
    assert StartIndex(d) == 1023 && LedCount(d) == 2;
    assert LedAt(d, 0) == c1;
    assert forall k :: 0 <= k < 1023 ==> r[k] == pixels[k];
  }

  /** A datagram with tag 7 leaves the frame unchanged. */
  lemma ScenarioUnknownTag(pixels: seq<Rgb>)
    requires |pixels| == NumPixels
    ensures !Accepted([7, 0, 0, 0, 1, 2, 3])
    ensures ApplyPacket(pixels, [7, 0, 0, 0, 1, 2, 3]) == pixels
  {
  }
}
