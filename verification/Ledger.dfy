/**
 ledger.go: sending a preimage to a hardware wallet in command APDUs.

 The reference is the stream `EncodePath(path) + preimage` cut every 240 bytes, and a device
 that puts it together again.
 */
module Ledger {
  import opened Wrappers
  import opened Bytes

  const CLA: byte := 0xE0
  const INS_SIGN_SOROBAN: byte := 0x0A
  const P1_FIRST: byte := 0x00
  const P1_MORE: byte := 0x80
  const P2_LAST: byte := 0x00
  const P2_MORE: byte := 0x80
  const MAX_DATA: nat := 240

  type uint32 = x: int | 0 <= x < 0x1_0000_0000

  datatype Refusal = Unavailable | Locked | Denied | BlindSigningDisabled | WrongApp

  /** ledgerBuildAPDU: the length byte wraps, as a conversion to byte does. */
  function BuildApdu(ins: byte, p1: byte, p2: byte, data: seq<byte>): seq<byte> {
    [CLA, ins, p1, p2, |data| % 256] + data
  }

  function Segments(path: seq<uint32>): (s: seq<byte>)
    ensures |s| == 4 * |path|
  {
    if path == [] then [] else Segments(path[..|path| - 1]) + ToBigEndian(path[|path| - 1], 4)
  }

  /** A length byte, which wraps, and four bytes per segment. */
  function PathBytes(path: seq<uint32>): (s: seq<byte>)
    ensures |s| == 1 + 4 * |path|
  {
    [|path| % 256] + Segments(path)
  }

  /** ledgerEncodePath. */
  method EncodePath(path: seq<uint32>) returns (out: seq<byte>)
    ensures out == PathBytes(path)
  {
    out := [|path| % 256];
    for i := 0 to |path|
      invariant out == [|path| % 256] + Segments(path[..i])
    {
      assert path[..i + 1][..i] == path[..i];
      out := out + ToBigEndian(path[i], 4);
    }
    assert path[..|path|] == path;
  }

  /** exchange: the status word is the last two bytes of the device's answer; None is a transport failure. */
  function ReadResponse(response: Option<seq<byte>>): (r: Result<seq<byte>, Refusal>) {
    if response.None? || |response.value| < 2 then Err(Unavailable)
    else
      var n := |response.value|;
      var high: nat, low: nat := response.value[n - 2], response.value[n - 1];
      var status := 256 * high + low;
      if status == 0x9000 then Ok(response.value[..n - 2])
      else if status == 0x5515 then Err(Locked)
      else if status == 0x6985 then Err(Denied)
      else if status == 0x6C66 then Err(BlindSigningDisabled)
      else if status == 0x6E00 || status == 0x6D00 then Err(WrongApp)
      else Err(Unavailable)
  }

  /** The status word an answer ends in. */
  predicate EndsIn(response: Option<seq<byte>>, high: byte, low: byte) {
    response.Some? && |response.value| >= 2 && response.value[|response.value| - 2..] == [high, low]
  }

  /** Data comes back exactly before the success word, and each refusal from the words listed for it. */
  lemma {:induction false} ResponseMeans(response: Option<seq<byte>>, data: seq<byte>)
    ensures ReadResponse(response) == Ok(data) <==> response == Some(data + [0x90, 0x00])
    ensures ReadResponse(response) == Err(Locked) <==> EndsIn(response, 0x55, 0x15)
    ensures ReadResponse(response) == Err(Denied) <==> EndsIn(response, 0x69, 0x85)
    ensures ReadResponse(response) == Err(BlindSigningDisabled) <==> EndsIn(response, 0x6C, 0x66)
    ensures ReadResponse(response) == Err(WrongApp) <==> EndsIn(response, 0x6E, 0x00) || EndsIn(response, 0x6D, 0x00)
  {
    if response.Some? && |response.value| >= 2 {
      var v := response.value;
      assert v == v[..|v| - 2] + [v[|v| - 2], v[|v| - 1]];
      assert v[|v| - 2..] == [v[|v| - 2], v[|v| - 1]];
    }
  }

  // ---------- The reference framing ----------

  function FrameCount(stream: seq<byte>): nat {
    (|stream| + MAX_DATA - 1) / MAX_DATA
  }

  /** Where the first k pieces end. */
  function Cut(stream: seq<byte>, k: nat): (n: nat)
    ensures n <= |stream| && (n == |stream| <==> k >= FrameCount(stream))
  {
    if MAX_DATA * k < |stream| then MAX_DATA * k else |stream|
  }

  function Piece(stream: seq<byte>, k: nat): (s: seq<byte>)
    ensures |s| <= MAX_DATA
  {
    stream[Cut(stream, k)..Cut(stream, k + 1)]
  }

  /** The k-th APDU: the first flag on the first alone, the last flag on the last alone. */
  function Frame(stream: seq<byte>, k: nat): seq<byte> {
    BuildApdu(INS_SIGN_SOROBAN, if k == 0 then P1_FIRST else P1_MORE,
              if k + 1 == FrameCount(stream) then P2_LAST else P2_MORE, Piece(stream, k))
  }

  function Frames(stream: seq<byte>, k: nat): (f: seq<seq<byte>>)
    ensures |f| == k
  {
    if k == 0 then [] else Frames(stream, k - 1) + [Frame(stream, k - 1)]
  }

  // ---------- The sending loop ----------

  /** What the device answers to the last of the APDUs it has been sent. */
  type Device = seq<seq<byte>> -> Option<seq<byte>>

  /** The device accepted each of the first k frames. */
  ghost predicate Accepted(device: Device, stream: seq<byte>, k: nat) {
    k == 0 || (Accepted(device, stream, k - 1) && ReadResponse(device(Frames(stream, k))).Ok?)
  }

  lemma {:induction false} NextPiece(path: seq<byte>, preimage: seq<byte>, offset: nat, k: nat)
    requires 0 < |path| < MAX_DATA && offset <= |preimage| && k < FrameCount(path + preimage)
    requires k == 0 ==> offset == 0
    requires k > 0 ==> |path| + offset == MAX_DATA * k && offset > 0
    ensures var stream := path + preimage;
            var capacity := if k == 0 then MAX_DATA - |path| else MAX_DATA;
            var size := if |preimage| - offset > capacity then capacity else |preimage| - offset;
            var data := (if k == 0 then path else []) + preimage[offset..offset + size];
            && Frames(stream, k + 1)
               == Frames(stream, k) + [BuildApdu(INS_SIGN_SOROBAN, if k == 0 then P1_FIRST else P1_MORE,
                                                 if offset + size >= |preimage| then P2_LAST else P2_MORE, data)]
            && (offset + size >= |preimage| <==> k + 1 == FrameCount(stream))
            && (offset + size < |preimage| ==> |path| + offset + size == MAX_DATA * (k + 1) && size > 0)
  {
    var stream := path + preimage;
    var capacity := if k == 0 then MAX_DATA - |path| else MAX_DATA;
    var size := if |preimage| - offset > capacity then capacity else |preimage| - offset;
    if k > 0 {
      assert stream[|path| + offset..|path| + offset + size] == [] + preimage[offset..offset + size];
    } else {
      assert stream[..|path| + size] == path + preimage[..size];
    }
  }

  /**
   signPreimage. The APDUs sent are the frames of path then preimage, in order, up to the last
   one or up to the first that the device refuses; a signature comes back exactly when every
   frame is accepted and the answer to the last one is not empty.
   */
  method SignPreimage(segments: seq<uint32>, preimage: seq<byte>, device: Device)
    returns (r: Result<seq<byte>, Refusal>, sent: seq<seq<byte>>)
    ensures |PathBytes(segments)| >= MAX_DATA ==> r == Err(Unavailable) && sent == []
    ensures |PathBytes(segments)| < MAX_DATA ==>
              var stream := PathBytes(segments) + preimage;
              && 0 < |sent| <= FrameCount(stream) && sent == Frames(stream, |sent|)
              && Accepted(device, stream, |sent| - 1)
              && var answer := ReadResponse(device(sent));
              && (|sent| < FrameCount(stream) ==> answer.Err?)
              && r == (if answer.Ok? && answer.value == [] then Err(Unavailable) else answer)
  {
    var path := EncodePath(segments);
    ghost var stream := path + preimage;
    var offset := 0;
    sent := [];
    while true
      invariant offset <= |preimage| && sent == Frames(stream, |sent|)
      invariant |path| >= MAX_DATA ==> sent == []
      invariant |path| < MAX_DATA ==> |sent| < FrameCount(stream) && Accepted(device, stream, |sent|)
      invariant |sent| == 0 ==> offset == 0
      invariant |sent| > 0 ==> |path| + offset == MAX_DATA * |sent| && offset > 0
      decreases |preimage| - offset
    {
      var first := offset == 0;
      var capacity := if first then MAX_DATA - |path| else MAX_DATA;
      if capacity <= 0 { return Err(Unavailable), sent; }
      NextPiece(path, preimage, offset, |sent|);
      var remaining := |preimage| - offset;
      var size := if remaining > capacity then capacity else remaining;
      var last := offset + size >= |preimage|;
      var data := (if first then path else []) + preimage[offset..offset + size];
      var p1 := if first then P1_FIRST else P1_MORE;
      var p2 := if last then P2_LAST else P2_MORE;
      sent := sent + [BuildApdu(INS_SIGN_SOROBAN, p1, p2, data)];
      var response := ReadResponse(device(sent));
      if response.Err? { return Err(response.error), sent; }
      if last {
        return if response.value == [] then Err(Unavailable) else response, sent;
      }
      assert Accepted(device, stream, |sent|);
      offset := offset + size;
    }
  }

  // ---------- A device that puts the stream together ----------

  /** The preimage bytes received, and whether the last chunk has come. */
  datatype Receiver = Receiving(accumulated: seq<byte>) | Complete(preimage: seq<byte>) | Broken

  /** ledger_test.go's device: it drops the path from the first chunk and accumulates the rest. */
  function Receive(state: Receiver, apdu: seq<byte>): (next: Receiver) {
    if !state.Receiving? || |apdu| < 5 || apdu[0] != 0xE0 || apdu[1] != 0x0A then Broken
    else
      var length: nat, data := apdu[4], apdu[5..];
      var segments: nat := if data == [] then 0 else data[0];
      if |data| != length || (apdu[2] == 0x00 && |data| < 1 + 4 * segments) then Broken
      else
        var chunk := if apdu[2] == 0x00 then data[1 + 4 * segments..] else data;
        if apdu[3] == 0x80 then Receiving(state.accumulated + chunk) else Complete(state.accumulated + chunk)
  }

  function ReceiveAll(apdus: seq<seq<byte>>): (state: Receiver) {
    if apdus == [] then Receiving([]) else Receive(ReceiveAll(apdus[..|apdus| - 1]), apdus[|apdus| - 1])
  }

  lemma {:induction false} ApduFields(ins: byte, p1: byte, p2: byte, data: seq<byte>)
    requires |data| < 256
    ensures var a := BuildApdu(ins, p1, p2, data);
            |a| == 5 + |data| && a[..5] == [CLA, ins, p1, p2, |data|] && a[5..] == data
  {
  }

  function Received(bytes: seq<byte>, complete: bool): Receiver {
    if complete then Complete(bytes) else Receiving(bytes)
  }

  lemma {:induction false} ReceiveFirst(stream: seq<byte>, segments: nat)
    requires |Piece(stream, 0)| >= 1 + 4 * segments && Piece(stream, 0)[0] == segments
    ensures Receive(Receiving([]), Frame(stream, 0))
            == Received(Piece(stream, 0)[1 + 4 * segments..], FrameCount(stream) == 1)
  {
    ApduFields(INS_SIGN_SOROBAN, P1_FIRST, if 1 == FrameCount(stream) then P2_LAST else P2_MORE, Piece(stream, 0));
    var chunk := Piece(stream, 0)[1 + 4 * segments..];
    assert [] + chunk == chunk;
  }

  lemma {:induction false} ReceiveMore(before: seq<byte>, stream: seq<byte>, k: nat)
    requires k > 0
    ensures Receive(Receiving(before), Frame(stream, k))
            == Received(before + Piece(stream, k), k + 1 == FrameCount(stream))
  {
    ApduFields(INS_SIGN_SOROBAN, P1_MORE, if k + 1 == FrameCount(stream) then P2_LAST else P2_MORE, Piece(stream, k));
  }

  /** After any frame but the last the device holds the preimage up to the cut; after the last, all of it. */
  lemma {:induction false} DeviceAccumulates(segments: seq<uint32>, preimage: seq<byte>, k: nat)
    requires |PathBytes(segments)| < MAX_DATA
    requires 0 < k <= FrameCount(PathBytes(segments) + preimage)
    ensures var stream := PathBytes(segments) + preimage;
            var received := stream[|PathBytes(segments)|..Cut(stream, k)];
            ReceiveAll(Frames(stream, k)) == Received(received, k == FrameCount(stream))
  {
    var path := PathBytes(segments);
    var stream := path + preimage;
    var frames := Frames(stream, k);
    assert frames[..k - 1] == Frames(stream, k - 1);
    if k == 1 {
      FirstChunk(segments, preimage);
      ReceiveFirst(stream, |segments|);
    } else {
      var piece := Piece(stream, k - 1);
      DeviceAccumulates(segments, preimage, k - 1);
      ReceiveMore(stream[|path|..Cut(stream, k - 1)], stream, k - 1);
      assert stream[|path|..Cut(stream, k - 1)] + piece == stream[|path|..Cut(stream, k)];
    }
  }

  lemma {:induction false} FirstChunk(segments: seq<uint32>, preimage: seq<byte>)
    requires |PathBytes(segments)| < MAX_DATA
    ensures var stream := PathBytes(segments) + preimage;
            var piece := Piece(stream, 0);
            && |piece| >= |PathBytes(segments)| && piece[0] == |segments|
            && piece[|PathBytes(segments)|..] == stream[|PathBytes(segments)|..Cut(stream, 1)]
  {
    var stream := PathBytes(segments) + preimage;
    assert Piece(stream, 0)[0] == stream[0] == PathBytes(segments)[0];
  }

  /** The device has the whole preimage after the last frame, and not before. */
  lemma {:induction false} DeviceGetsPreimage(segments: seq<uint32>, preimage: seq<byte>, k: nat)
    requires |PathBytes(segments)| < MAX_DATA
    requires k <= FrameCount(PathBytes(segments) + preimage)
    ensures var stream := PathBytes(segments) + preimage;
            && (k == FrameCount(stream) ==> ReceiveAll(Frames(stream, k)) == Complete(preimage))
            && (k < FrameCount(stream) ==> ReceiveAll(Frames(stream, k)).Receiving?)
  {
    if k > 0 {
      DeviceAccumulates(segments, preimage, k);
      var path, stream := PathBytes(segments), PathBytes(segments) + preimage;
      assert stream[|path|..|stream|] == preimage;
    }
  }

  /** Every frame but the last carries 240 bytes, and the last no more, so the stream takes as few as it can. */
  lemma {:induction false} FramesAreFull(stream: seq<byte>, k: nat)
    requires k < FrameCount(stream)
    ensures |Frame(stream, k)| == 5 + |Piece(stream, k)|
    ensures if k + 1 < FrameCount(stream) then |Piece(stream, k)| == 240 else 0 < |Piece(stream, k)| <= 240
    ensures 240 * (FrameCount(stream) - 1) < |stream| <= 240 * FrameCount(stream)
  {
    CutsAt(stream, k);
    CutsAt(stream, k + 1);
    CutsAt(stream, FrameCount(stream) - 1);
  }

  lemma {:induction false} CutsAt(stream: seq<byte>, k: nat)
    ensures k < FrameCount(stream) ==> Cut(stream, k) == 240 * k < |stream|
    ensures k >= FrameCount(stream) ==> Cut(stream, k) == |stream| <= 240 * k
  {
  }

  /** The data fields of the frames. */
  function Payloads(stream: seq<byte>, k: nat): seq<byte> {
    if k == 0 then [] else Payloads(stream, k - 1) + Piece(stream, k - 1)
  }

  /** Together the data fields are the stream: nothing lost, repeated or out of order. */
  lemma {:induction false} PiecesJoin(stream: seq<byte>, k: nat)
    ensures Payloads(stream, k) == stream[..Cut(stream, k)]
    ensures k >= FrameCount(stream) ==> Payloads(stream, k) == stream
  {
    if k > 0 {
      PiecesJoin(stream, k - 1);
      assert stream[..Cut(stream, k - 1)] + Piece(stream, k - 1) == stream[..Cut(stream, k)];
    }
  }
}
