/** The UDP side of the relay: a receiver that owns a 32x32 RGB frame
    buffer, applies WLED DNRGB datagrams to it in place, and once per tick
    drains at most ten datagrams and, if any was accepted, sends the frame
    to the display. */
module LedReceiver {
  import opened Bytes
  import opened Wled
  import opened DisplayWrapper

  /** Datagrams read from the socket per tick at most. */
  const MaxPacketsPerTick: nat := 10

  /** The frame buffer as the row-major pixel list handed to the display:
      pixel (x, y) is at index `y * Width + x`. */
  function Flatten(fb: array2<Rgb>): (pixels: seq<Rgb>)
    reads fb
    requires fb.Length0 == Height && fb.Length1 == Width
    ensures |pixels| == NumPixels
    ensures forall y, x :: 0 <= y < Height && 0 <= x < Width ==> pixels[y * Width + x] == fb[y, x]
  {
    seq(NumPixels, k requires 0 <= k < NumPixels reads fb => fb[k / Width, k % Width])
  }

  /** Index `k` of the pixel list is row `k / Width`, column `k % Width`. */
  lemma FlattenAt(fb: array2<Rgb>, k: int)
    requires fb.Length0 == Height && fb.Length1 == Width && 0 <= k < NumPixels
    ensures 0 <= k / Width < Height && 0 <= k % Width < Width
    ensures Flatten(fb)[k] == fb[k / Width, k % Width] && Cell(k / Width, k % Width) == k
  {
  }

  /** Row-major index of cell (x, y). */
  function Cell(y: int, x: int): int
  {
    y * Width + x
  }

  /** Distinct cells of the grid have distinct row-major indices. */
  lemma RowMajorOthers(y: int, x: int)
    requires 0 <= x < Width
    ensures forall y', x' :: 0 <= x' < Width && (y' != y || x' != x) ==> Cell(y', x') != Cell(y, x)
  {
  }

  /** Pixel `k` once the datagram's triples for pixels below `upto` are written. */
  ghost function Painted(data: seq<byte>, before: seq<Rgb>, upto: int, k: int): Rgb
    requires |before| == NumPixels && 0 <= k < NumPixels
  {
    if Covers(data, k) && k < upto then Written(data, k) else before[k]
  }

  /** Writing triple `i` to pixel `StartIndex + i` extends the painted range
      by that one pixel. */
  lemma PaintStep(data: seq<byte>, before: seq<Rgb>, i: nat)
    requires Accepted(data) && |before| == NumPixels
    requires i < LedCount(data) && StartIndex(data) + i < NumPixels
    ensures var c := StartIndex(data) + i;
      && Painted(data, before, c + 1, c) == LedAt(data, i)
      && (forall k :: 0 <= k < NumPixels && k != c ==>
            Painted(data, before, c + 1, k) == Painted(data, before, c, k))
  {
  }

  /** Once the range reaches the frame's end or the last triple, every
      covered pixel is painted. */
  lemma PaintDone(data: seq<byte>, before: seq<Rgb>, upto: int)
    requires Accepted(data) && |before| == NumPixels
    requires upto >= NumPixels || upto == StartIndex(data) + LedCount(data)
    ensures forall k :: 0 <= k < NumPixels ==>
      Painted(data, before, upto, k) == ApplyPacket(before, data)[k]
  {
  }

  class SimpleLedReceiver {
    /** `frame_buffer[y, x]`, never reallocated. */
    const frameBuffer: array2<Rgb>
    var frameCount: nat

    ghost predicate Valid()
    {
      frameBuffer.Length0 == Height && frameBuffer.Length1 == Width
    }

    /** A black frame and no frame sent yet. */
    constructor ()
      ensures Valid() && fresh(frameBuffer) && frameCount == 0
      ensures forall k :: 0 <= k < NumPixels ==> Flatten(frameBuffer)[k] == Black
    {
      frameBuffer := new Rgb[Height, Width]((y, x) => Black);
      frameCount := 0;
    }

    /** `process_wled_packet`: returns whether the datagram is a DNRGB
        datagram; writes its triples into the frame in place. */
    method ProcessWledPacket(data: seq<byte>) returns (ok: bool)
      requires Valid()
      modifies frameBuffer
      ensures ok == Accepted(data)
      ensures Flatten(frameBuffer) == ApplyPacket(old(Flatten(frameBuffer)), data)
    {
      if |data| < 4 || data[0] != DnrgbTag {
        return false;
      }
      ghost var before := Flatten(frameBuffer);
      var startIndex := data[2] as int * 256 + data[3] as int;
      var rgbData := data[4..];
      var numLeds := |rgbData| / 3;
      for i := 0 to numLeds
        invariant forall y, x :: 0 <= y < Height && 0 <= x < Width ==>
          frameBuffer[y, x] == Painted(data, before, startIndex + i, Cell(y, x))
      {
        if startIndex + i >= NumPixels {
          PaintDone(data, before, startIndex + i);
          break;
        }
        var base := i * 3;
        if base + 2 >= |rgbData| {
          // `process_wled_packet` skips an incomplete triple here; i < numLeds rules it out.
          assert false;
          continue;
        }
        var x := (startIndex + i) % Width;
        var y := (startIndex + i) / Width;
        assert Cell(y, x) == startIndex + i && y < Height;
        PaintStep(data, before, i);
        if y < Height {
          frameBuffer[y, x] := Rgb(rgbData[base], rgbData[base + 1], rgbData[base + 2]);
        }
        RowMajorOthers(y, x);
      }
      PaintDone(data, before, startIndex + numLeds);
      ok := true;
      forall k | 0 <= k < NumPixels
        ensures Flatten(frameBuffer)[k] == ApplyPacket(before, data)[k]
      {
        FlattenAt(frameBuffer, k);
      }
    }

    /** `send_frame_simple`: hands the flattened frame to `send_frame`;
        `ok` is false when that raised. */
    method SendFrameSimple(wrapper: IdmDisplayWrapper, peripheral: Peripheral, encode: Encoder, now: int)
      returns (ok: bool)
      requires Valid()
      modifies wrapper, peripheral
      ensures FrameSent(wrapper, peripheral, Flatten(frameBuffer), encode, now, ok)
    {
      var pixels := Flatten(frameBuffer);
      ok := wrapper.SendFrame(peripheral, pixels, encode, now);
    }

    /** One iteration of the drain loop: datagram `i` is applied after the
        ones before it, and `frameUpdated` is raised when it is accepted. */
    method ReceiveOne(ghost before: seq<Rgb>, pending: seq<seq<byte>>, i: nat, frameUpdated: bool)
      returns (updated: bool)
      requires Valid() && |before| == NumPixels && i < |pending|
      requires frameUpdated == AnyAccepted(pending[..i])
      requires Flatten(frameBuffer) == ApplyAll(before, pending[..i])
      modifies frameBuffer
      ensures updated == AnyAccepted(pending[..i + 1])
      ensures Flatten(frameBuffer) == ApplyAll(before, pending[..i + 1])
    {
      var data := pending[i];
      var accepted := ProcessWledPacket(data);
      updated := frameUpdated || accepted;
      assert pending[..i + 1] == pending[..i] + [data];
      ApplyAllSnoc(before, pending[..i], data);
      AnyAcceptedSnoc(pending[..i], data);
    }

    /** The drain loop of `run`: read up to ten pending datagrams, each as
        `recvfrom(4096)` returns it (an empty queue is the socket's
        BlockingIOError), and apply each in arrival order; `frameUpdated`
        tells whether any was accepted. */
    method Drain(pending: seq<seq<byte>>) returns (rest: seq<seq<byte>>, frameUpdated: bool)
      requires Valid()
      modifies frameBuffer
      ensures var n := if |pending| < MaxPacketsPerTick then |pending| else MaxPacketsPerTick;
        && rest == pending[n..]
        && frameUpdated == AnyAccepted(pending[..n])
        && Flatten(frameBuffer) == ApplyAll(old(Flatten(frameBuffer)), pending[..n])
    {
      ghost var before := Flatten(frameBuffer);
      frameUpdated := false;
      var packetsProcessed := 0;
      while packetsProcessed < MaxPacketsPerTick
        invariant packetsProcessed <= MaxPacketsPerTick && packetsProcessed <= |pending|
        invariant frameUpdated == AnyAccepted(pending[..packetsProcessed])
        invariant Flatten(frameBuffer) == ApplyAll(before, pending[..packetsProcessed])
      {
        if packetsProcessed == |pending| {
          // The queue is empty: `recvfrom` raises BlockingIOError.
          break;
        }
        frameUpdated := ReceiveOne(before, pending, packetsProcessed, frameUpdated);
        packetsProcessed := packetsProcessed + 1;
      }
      rest := pending[packetsProcessed..];
    }

    /** One due tick of `run`: drain, and if any datagram was accepted send
        the frame, counting it when the send succeeded. `rest` is what is
        left in the socket; `sent` reports the send. */
    method Tick(pending: seq<seq<byte>>, wrapper: IdmDisplayWrapper, peripheral: Peripheral, encode: Encoder, now: int)
      returns (rest: seq<seq<byte>>, frameUpdated: bool, sent: bool)
      requires Valid()
      modifies this, frameBuffer, wrapper, peripheral
      ensures var n := if |pending| < MaxPacketsPerTick then |pending| else MaxPacketsPerTick;
        && rest == pending[n..]
        && frameUpdated == AnyAccepted(pending[..n])
        && Flatten(frameBuffer) == ApplyAll(old(Flatten(frameBuffer)), pending[..n])
      ensures frameUpdated ==> FrameSent(wrapper, peripheral, Flatten(frameBuffer), encode, now, sent)
      ensures !frameUpdated ==> !sent && unchanged(wrapper, peripheral)
      ensures frameCount == old(frameCount) + (if sent then 1 else 0)
    {
      rest, frameUpdated := Drain(pending);
      sent := false;
      if frameUpdated {
        sent := SendFrameSimple(wrapper, peripheral, encode, now);
        if sent {
          frameCount := frameCount + 1;
        }
      }
    }
  }
}
