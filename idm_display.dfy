/** The iDotMatrix image transfer format: the PNG is cut into 65535-byte
    fragments, each prefixed by a 5-byte header (total size as '<H', a
    zero '<H', a continuation flag byte) and the PNG length as '<I'. */
module IdmDisplay {
  import opened Bytes
  import opened Chunking

  const FragmentSize: nat := 65535
  /** Bytes in front of every fragment: 5 of header and 4 of PNG length. */
  const PrefixSize: nat := 9

  /** The PNG cut into fragments, as `create_image_payloads` does first. */
  function Fragments(png: seq<byte>): seq<seq<byte>>
  {
    Chunks(png, FragmentSize)
  }

  /** `total_size`: the PNG length plus one per fragment. */
  function TotalSize(png: seq<byte>): (n: nat)
    ensures n == |png| + (|png| + FragmentSize - 1) / FragmentSize
  {
    ChunkCount(png, FragmentSize);
    |png| + |Fragments(png)|
  }

  /** 0 on the first fragment, 2 on each later one. */
  function ContinuationFlag(i: nat): (flag: byte)
    ensures i == 0 ==> flag == 0
    ensures i > 0 ==> flag == 2
  {
    if i > 0 then 2 else 0
  }

  /** `struct.pack('<HHB', total, 0, flag)`. */
  function PackHeader(total: nat, flag: byte): (r: Result<seq<byte>>)
    ensures r.Ok? <==> total < 0x1_0000
    ensures r.Ok? ==> (|r.value| == 5 && DecodeLe(r.value[..2]) == total
                       && r.value[2] == 0 && r.value[3] == 0 && r.value[4] == flag)
    ensures r.Err? ==> r.error == OutOfRange('H', total)
  {
    match PackU16(total)
    case Err(e) => Err(e)
    case Ok(t) =>
      var z := PackU16(0).value;
      assert DecodeLe(z) == 0;
      assert z[0] == 0 && z[1] == 0 by {
        assert z[1..][1..] == [];
      }
      var h := t + z + [flag];
      assert h[..2] == t;
      Ok(h)
  }

  /** Fragments `i..` framed and concatenated, or the error of the first
      fragment whose header does not pack. */
  function FrameFragments(frags: seq<seq<byte>>, total: nat, pngLen: nat, i: nat): (r: Result<seq<byte>>)
    requires i <= |frags|
    ensures r.Ok? <==> i == |frags| || (total < 0x1_0000 && pngLen < 0x1_0000_0000)
    ensures r.Err? ==> r.error == if total >= 0x1_0000 then OutOfRange('H', total) else OutOfRange('I', pngLen)
    decreases |frags| - i
  {
    if i == |frags| then Ok([])
    else
      match PackHeader(total, ContinuationFlag(i))
      case Err(e) => Err(e)
      case Ok(header) =>
        match PackU32(pngLen)
        case Err(e) => Err(e)
        case Ok(len) =>
          match FrameFragments(frags, total, pngLen, i + 1)
          case Err(e) => Err(e)
          case Ok(rest) => Ok(header + len + frags[i] + rest)
  }

  /** What `create_image_payloads(png)` returns, or the `struct.error` it raises. */
  function ImagePayloads(png: seq<byte>): (r: Result<seq<byte>>)
    ensures r.Ok? <==> |png| == 0 || TotalSize(png) < 0x1_0000
    ensures r.Err? ==> r.error == OutOfRange('H', TotalSize(png))
  {
    FrameFragments(Fragments(png), TotalSize(png), |png|, 0)
  }

  /** `p` with `prefix` in front when `r` succeeded. */
  function Prepend(prefix: seq<byte>, r: Result<seq<byte>>): Result<seq<byte>>
  {
    match r
    case Err(e) => Err(e)
    case Ok(rest) => Ok(prefix + rest)
  }

  /** The fragment loop of `create_image_payloads`, extending one buffer. */
  method CreateImagePayloads(png: seq<byte>) returns (r: Result<seq<byte>>)
    ensures r == ImagePayloads(png)
  {
    var frags := Chunks(png, FragmentSize);
    var total := |png| + |frags|;
    var payloads: seq<byte> := [];
    var i := 0;
    assert Prepend([], FrameFragments(frags, total, |png|, 0)) == FrameFragments(frags, total, |png|, 0) by {
      match FrameFragments(frags, total, |png|, 0)
      case Err(e) =>
      case Ok(rest) => assert [] + rest == rest;
    }
    while i < |frags|
      invariant 0 <= i <= |frags|
      invariant ImagePayloads(png) == Prepend(payloads, FrameFragments(frags, total, |png|, i))
      decreases |frags| - i
    {
      var header := PackHeader(total, if i > 0 then 2 else 0);
      if header.Err? {
        return Err(header.error);
      }
      // '<I' cannot fail here: the PNG is shorter than the total size just packed as '<H'.
      var pngLen := PackU32(|png|).value;
      var payload := header.value + pngLen + frags[i];
      assert Prepend(payloads, FrameFragments(frags, total, |png|, i))
          == Prepend(payloads + payload, FrameFragments(frags, total, |png|, i + 1)) by {
        match FrameFragments(frags, total, |png|, i + 1)
        case Err(e) =>
        case Ok(rest) =>
          assert payloads + (payload + rest) == (payloads + payload) + rest;
      }
      payloads := payloads + payload;
      i := i + 1;
    }
    assert payloads + [] == payloads;
    r := Ok(payloads);
  }

  /** `struct.pack('<H', total_size)` fails exactly when the PNG is 65535
      bytes or longer; shorter PNGs, the empty one included, succeed. */
  lemma PayloadsOkIff(png: seq<byte>)
    ensures ImagePayloads(png).Ok? <==> |png| < FragmentSize
    ensures ImagePayloads(png).Err? ==> ImagePayloads(png).error == OutOfRange('H', TotalSize(png))
  {
    ChunkCount(png, FragmentSize);
    var frags := Fragments(png);
    if |png| == 0 {
      assert frags == [];
    } else {
      assert |frags| >= 1;
      if |png| < FragmentSize {
        assert frags == [png];
        assert FrameFragments(frags, TotalSize(png), |png|, 1) == Ok([]);
      }
    }
  }

  /** Fragment count is the ceiling of `|png| / 65535`, none for an empty PNG,
      and a successful call never has more than one fragment. */
  lemma FragmentCount(png: seq<byte>)
    ensures |Fragments(png)| == (|png| + FragmentSize - 1) / FragmentSize
    ensures |Fragments(png)| == 0 <==> |png| == 0
    ensures ImagePayloads(png).Ok? ==> |Fragments(png)| <= 1
  {
    ChunkCount(png, FragmentSize);
    PayloadsOkIff(png);
  }

  lemma {:induction false} FrameFragmentsLength(frags: seq<seq<byte>>, total: nat, pngLen: nat, i: nat)
    requires i <= |frags|
    ensures FrameFragments(frags, total, pngLen, i).Ok? ==>
      |FrameFragments(frags, total, pngLen, i).value| == PrefixSize * (|frags| - i) + |Concat(frags[i..])|
    decreases |frags| - i
  {
    if i < |frags| {
      FrameFragmentsLength(frags, total, pngLen, i + 1);
      assert frags[i..] == [frags[i]] + frags[i + 1..];
      assert Concat(frags[i..]) == frags[i] + Concat(frags[i + 1..]);
    } else {
      assert frags[i..] == [];
    }
  }

  /** A successful payload is 9 bytes per fragment longer than the PNG. */
  lemma PayloadLength(png: seq<byte>)
    requires ImagePayloads(png).Ok?
    ensures |ImagePayloads(png).value| == PrefixSize * |Fragments(png)| + |png|
  {
    FrameFragmentsLength(Fragments(png), TotalSize(png), |png|, 0);
    assert Fragments(png)[0..] == Fragments(png);
    ChunksConcat(png, FragmentSize);
  }

  /** The receiving side's view: drop the 9-byte prefix of each fragment and
      keep up to 65535 bytes of PNG after it. */
  function StripHeaders(p: seq<byte>): (png: seq<byte>)
    decreases |p|
  {
    if |p| <= PrefixSize then []
    else if |p| - PrefixSize <= FragmentSize then p[PrefixSize..]
    else p[PrefixSize .. PrefixSize + FragmentSize] + StripHeaders(p[PrefixSize + FragmentSize..])
  }

  lemma {:induction false} StripFrameFragments(frags: seq<seq<byte>>, total: nat, pngLen: nat, i: nat)
    requires i <= |frags|
    requires forall j :: 0 <= j < |frags| ==> 0 < |frags[j]| <= FragmentSize
    requires forall j :: 0 <= j < |frags| - 1 ==> |frags[j]| == FragmentSize
    requires FrameFragments(frags, total, pngLen, i).Ok?
    ensures StripHeaders(FrameFragments(frags, total, pngLen, i).value) == Concat(frags[i..])
    decreases |frags| - i
  {
    if i == |frags| {
      assert frags[i..] == [];
    } else {
      var p := FrameFragments(frags, total, pngLen, i).value;
      var header := PackHeader(total, ContinuationFlag(i)).value;
      var len := PackU32(pngLen).value;
      var rest := FrameFragments(frags, total, pngLen, i + 1).value;
      assert p == (header + len) + frags[i] + rest;
      assert |header + len| == PrefixSize;
      assert frags[i..] == [frags[i]] + frags[i + 1..];
      assert Concat(frags[i..]) == frags[i] + Concat(frags[i + 1..]);
      if i + 1 < |frags| {
        StripFrameFragments(frags, total, pngLen, i + 1);
        assert p[PrefixSize .. PrefixSize + FragmentSize] == frags[i];
        assert p[PrefixSize + FragmentSize..] == rest;
      } else {
        assert rest == [] && frags[i + 1..] == [];
        assert p[PrefixSize..] == frags[i];
      }
    }
  }

  /** Removing each fragment's prefix and concatenating the rest gives back
      the PNG. */
  lemma PayloadRoundTrip(png: seq<byte>)
    requires ImagePayloads(png).Ok?
    ensures StripHeaders(ImagePayloads(png).value) == png
  {
    StripFrameFragments(Fragments(png), TotalSize(png), |png|, 0);
    assert Fragments(png)[0..] == Fragments(png);
    ChunksConcat(png, FragmentSize);
  }

  /** The layout of every successful non-empty payload: total size '<H',
      two zero bytes, flag 0, the PNG length '<I', then the PNG itself. The
      continuation flag 2 never appears. */
  lemma PayloadLayout(png: seq<byte>)
    requires ImagePayloads(png).Ok? && |png| > 0
    ensures var p := ImagePayloads(png).value;
      |p| == PrefixSize + |png|
      && DecodeLe(p[..2]) == |png| + 1 == TotalSize(png)
      && p[2] == 0 && p[3] == 0
      && p[4] == 0
      && DecodeLe(p[5..9]) == |png|
      && p[9..] == png
  {
    PayloadsOkIff(png);
    var frags := Fragments(png);
    assert frags == [png];
    var header := PackHeader(TotalSize(png), 0).value;
    var len := PackU32(|png|).value;
    assert FrameFragments(frags, TotalSize(png), |png|, 1) == Ok([]);
    var p := ImagePayloads(png).value;
    assert p == header + len + png + [];
    assert p[..2] == header[..2];
    assert p[5..9] == len;
  }

  /** The 10-byte control write sent before every image; its first two bytes
      are its own length, little-endian. */
  function FrameHeader(): (h: seq<byte>)
    ensures |h| == 10 && DecodeLe(h[..2]) == |h|
  {
    var h: seq<byte> := [10, 0, 5, 1, 1, 0, 0, 0, 0, 0];
    assert DecodeLe(h[..2]) == 10 by {
      assert h[..2][1..] == [0] && [0][1..] == [];
      assert DecodeLe([0]) == 0;
    }
    h
  }

  /** The synchronous notification setup: nothing to do on this BLE stack,
      so it reports success. */
  function EnableNotifications(): (ok: bool)
    ensures ok
  {
    true
  }
}
