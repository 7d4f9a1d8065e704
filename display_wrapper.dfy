/** Sending one frame to the display over BLE: encode the pixels, frame the
    image, cut the framed bytes into 512-byte writes and issue the frame
    header and then every chunk, in order, to one characteristic. */
module DisplayWrapper {
  import opened Bytes
  import opened Chunking
  import opened IdmDisplay
  import opened Wled

  const ServiceUuid: string := "000000fa-0000-1000-8000-00805f9b34fb"
  const WriteCmdUuid: string := "0000fa02-0000-1000-8000-00805f9b34fb"
  /** Largest payload of one link write. */
  const ChunkSize: nat := 512

  /** One acknowledged `write_request` on the link. */
  datatype Write = Write(service: string, characteristic: string, payload: seq<byte>)

  /** The image encoder (PIL's PNG writer), outside this model. */
  type Encoder = seq<Rgb> -> seq<byte>

  /** The writes one frame needs, in order: the frame header, then each
      512-byte chunk of the framed image. */
  function FrameWrites(payload: seq<byte>): (ws: seq<Write>)
    ensures |ws| == 1 + |Chunks(payload, ChunkSize)| && ws[0].payload == FrameHeader()
  {
    [HeaderWrite()] + ChunkWrites(Chunks(payload, ChunkSize))
  }

  /** The bytes carried by a sequence of writes, in order. */
  function Carried(ws: seq<Write>): (bs: seq<byte>)
    decreases |ws|
  {
    if ws == [] then [] else ws[0].payload + Carried(ws[1..])
  }

  /** The first write is the 10-byte header, every write goes to the same
      service and characteristic, there is one write per chunk after it,
      each chunk write carries 1..512 bytes (exactly 512 except the last),
      and the chunk writes carry the framed image exactly, in order. */
  lemma {:induction false} FrameWritesCarryPayload(payload: seq<byte>)
    ensures var ws := FrameWrites(payload);
      |ws| == 1 + |Chunks(payload, ChunkSize)|
      && ws[0].payload == FrameHeader()
      && (forall j :: 0 <= j < |ws| ==> ws[j].service == ServiceUuid && ws[j].characteristic == WriteCmdUuid)
      && (forall j :: 1 <= j < |ws| ==> 0 < |ws[j].payload| <= ChunkSize)
      && (forall j :: 1 <= j < |ws| - 1 ==> |ws[j].payload| == ChunkSize)
      && Carried(ws[1..]) == payload
  {
    var ws := FrameWrites(payload);
    CarriedChunks(Chunks(payload, ChunkSize));
    ChunksConcat(payload, ChunkSize);
    assert ws[1..] == ChunkWrites(Chunks(payload, ChunkSize));
  }

  /** One write per chunk, in chunk order. */
  function ChunkWrites(chunks: seq<seq<byte>>): (ws: seq<Write>)
    ensures |ws| == |chunks|
  {
    seq(|chunks|, j requires 0 <= j < |chunks| => Write(ServiceUuid, WriteCmdUuid, chunks[j]))
  }

  lemma {:induction false} CarriedChunks(chunks: seq<seq<byte>>)
    ensures Carried(ChunkWrites(chunks)) == Concat(chunks)
    decreases |chunks|
  {
    if chunks != [] {
      CarriedChunks(chunks[1..]);
      assert ChunkWrites(chunks)[1..] == ChunkWrites(chunks[1..]);
    }
  }

  /** The header write that opens every frame. */
  function HeaderWrite(): Write
  {
    Write(ServiceUuid, WriteCmdUuid, FrameHeader())
  }

  /** The header and the first `i` chunk writes, as a prefix of the frame's
      writes: a proper prefix when chunk `i` is still to go. */
  lemma FrameWritesPrefix(before: seq<Write>, payload: seq<byte>, i: nat)
    requires i <= |Chunks(payload, ChunkSize)|
    ensures var sent := before + [HeaderWrite()] + ChunkWrites(Chunks(payload, ChunkSize))[..i];
      i < |Chunks(payload, ChunkSize)| ==> Aborted(before, sent, FrameWrites(payload))
    ensures i == |Chunks(payload, ChunkSize)| ==>
      before + [HeaderWrite()] + ChunkWrites(Chunks(payload, ChunkSize))[..i] == before + FrameWrites(payload)
  {
    var ws := FrameWrites(payload);
    var cw := ChunkWrites(Chunks(payload, ChunkSize));
    assert ws[..i + 1] == [HeaderWrite()] + cw[..i];
    if i < |cw| {
      AbortedAfter(before, ws, i + 1);
    } else {
      assert cw[..i] == cw;
    }
  }

  /** A frame whose header or some chunk write failed: the log grew by a
      proper prefix of the frame's writes, and nothing after the failure. */
  ghost predicate Aborted(before: seq<Write>, after: seq<Write>, ws: seq<Write>)
  {
    |before| <= |after| < |before| + |ws| && after == before + ws[..|after| - |before|]
  }

  /** How the link log moved for a frame whose framing gave `framed`. */
  ghost predicate LinkOutcome(before: seq<Write>, after: seq<Write>, framed: Result<seq<byte>>, ok: bool)
  {
    if framed.Err? then !ok && after == before
    else if ok then after == before + FrameWrites(framed.value)
    else Aborted(before, after, FrameWrites(framed.value))
  }

  /** What one `send_frame` call did to the wrapper's state and the link:
      the counter went up by one and notifications are on, whatever
      happened; if the image did not frame, nothing was written; otherwise
      the frame's writes went out completely (`ok`) or up to the failing one;
      and the send time moved to `now` only on success. */
  twostate predicate FrameSent(w: IdmDisplayWrapper, p: Peripheral, pixels: seq<Rgb>, encode: Encoder, now: int, ok: bool)
    reads w, p
  {
    && w.frameCounter == old(w.frameCounter) + 1
    && w.notificationsEnabled
    && LinkOutcome(old(p.log), p.log, ImagePayloads(encode(pixels)), ok)
    && w.lastSendTime == if ok then now else old(w.lastSendTime)
  }

  lemma AbortedAfter(before: seq<Write>, ws: seq<Write>, k: nat)
    requires k < |ws|
    ensures Aborted(before, before + ws[..k], ws)
  {
    assert |before + ws[..k]| - |before| == k;
  }

  /** The BLE peripheral, seen through the writes it acknowledged. */
  class Peripheral {
    var log: seq<Write>

    constructor ()
      ensures log == []
    {
      log := [];
    }

    /** `write_request`: the link may refuse any write; a refused write is
        not logged. */
    method WriteRequest(service: string, characteristic: string, payload: seq<byte>) returns (ok: bool)
      modifies this
      ensures log == if ok then old(log) + [Write(service, characteristic, payload)] else old(log)
    {
      ok :| true;
      if ok {
        log := log + [Write(service, characteristic, payload)];
      }
    }
  }

  /** The write sequence of `send_frame`: the frame header, then the
      512-byte chunks of `payload` in order, stopping at the first write
      that fails. */
  method WriteFrame(peripheral: Peripheral, payload: seq<byte>) returns (ok: bool)
    modifies peripheral
    ensures LinkOutcome(old(peripheral.log), peripheral.log, Ok(payload), ok)
  {
    var chunks := Chunks(payload, ChunkSize);
    ghost var before := peripheral.log;
    ghost var cw := ChunkWrites(chunks);
    var acked := peripheral.WriteRequest(ServiceUuid, WriteCmdUuid, FrameHeader());
    if !acked {
      AbortedAfter(before, FrameWrites(payload), 0);
      return false;
    }
    var i := 0;
    while i < |chunks|
      invariant 0 <= i <= |chunks|
      invariant peripheral.log == before + [HeaderWrite()] + cw[..i]
    {
      acked := peripheral.WriteRequest(ServiceUuid, WriteCmdUuid, chunks[i]);
      if !acked {
        FrameWritesPrefix(before, payload, i);
        return false;
      }
      assert cw[..i + 1] == cw[..i] + [cw[i]];
      i := i + 1;
    }
    FrameWritesPrefix(before, payload, i);
    ok := true;
  }

  /** The class-level state of `IDMDisplayWrapper`, one instance per process. */
  class IdmDisplayWrapper {
    var frameCounter: nat
    var lastSendTime: int
    var notificationsEnabled: bool

    constructor ()
      ensures frameCounter == 0 && lastSendTime == 0 && !notificationsEnabled
    {
      frameCounter, lastSendTime, notificationsEnabled := 0, 0, false;
    }

    /** `send_frame`. `ok` is false when the call raises: the image does not
        frame ('<H' overflow) or a write fails. `now` is the clock reading
        after the last write. The counter is bumped and notifications are
        enabled before anything can fail. */
    method SendFrame(peripheral: Peripheral, pixels: seq<Rgb>, encode: Encoder, now: int) returns (ok: bool)
      modifies this, peripheral
      ensures FrameSent(this, peripheral, pixels, encode, now, ok)
    {
      frameCounter := frameCounter + 1;
      if !notificationsEnabled {
        if EnableNotifications() {
          notificationsEnabled := true;
        }
      }
      var png := encode(pixels);
      var framed := CreateImagePayloads(png);
      if framed.Err? {
        assert LinkOutcome(old(peripheral.log), peripheral.log, framed, false);
        return false;
      }
      ok := WriteFrame(peripheral, framed.value);
      if ok {
        lastSendTime := now;
      }
    }
  }
}
