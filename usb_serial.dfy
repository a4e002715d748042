/** The serial-port transport: the per-byte frame parser, the polling read loop that drives
    it, and the open/closed state of the port with its write and DTR-reset operations.
    The operating system's serial layer is replaced by parameters: whether the port is
    listed, whether opening or closing raises, what a write reports, and the bytes that
    each poll of the input buffer finds (a finite list of polls stands in for the timeout). */
module UsbSerial {
  import opened Outcomes
  import opened NpcCodec

  // ---------------------------------------------------------------------------
  // The per-byte parser

  /** The offset at which the END byte is due: `3 + 2 + payload_len`, the payload length
      being the fourth captured byte once more than three bytes are held, else 0. */
  function EndOffset(packet: seq<Byte>): int
  {
    var payloadLength: int := if |packet| > 3 then packet[3] else 0;
    3 + 2 + payloadLength
  }

  /** `decode_and_capture`: vets one byte against the frame being captured. The index is
      -1 while hunting for START, the offset of the byte while capturing, and -2 once the
      END byte arrived at its offset. */
  function DecodeAndCapture(byteIndex: int, byteIn: Byte, packet: seq<Byte>): (r: (int, seq<Byte>))
    ensures byteIndex == -1 && byteIn != START ==> r == (-1, packet)
    ensures byteIndex == -1 && byteIn == START ==> r == (0, packet + [START])
    ensures byteIndex < -1 ==> r == (byteIndex, packet)
    ensures byteIndex >= 0 && byteIndex != EndOffset(packet) ==> r == (byteIndex, packet + [byteIn])
    ensures byteIndex >= 0 && byteIndex == EndOffset(packet) && byteIn == END ==> r == (-2, packet + [END])
    ensures byteIndex >= 0 && byteIndex == EndOffset(packet) && byteIn != END ==> r == (-1, [byteIn])
  {
    var index := if byteIndex == -1 && byteIn == START then 0 else byteIndex;
    if index >= 0 then
      if index == EndOffset(packet) then
        if byteIn == END then (-2, packet + [byteIn]) else (-1, [byteIn])
      else
        (index, packet + [byteIn])
    else
      (index, packet)
  }

  // ---------------------------------------------------------------------------
  // The read loop, as functions

  /** The variables of `read_response`'s loop: the parser state, the number of frames
      completed so far, and the ACK and data frames collected. */
  datatype Reader = Reader(byteIndex: int, packet: seq<Byte>, packetIndex: int, ack: seq<Byte>, rx: seq<seq<Byte>>)

  /** What one poll of the port yields: the bytes waiting, or a serial exception. */
  datatype Poll = Bytes(data: seq<Byte>) | Fault(reason: string)

  function Start(): Reader
  {
    Reader(-1, [], 0, [], [])
  }

  /** The loop has stopped reading: the expected number of frames was completed. */
  predicate Done(s: Reader)
  {
    s.byteIndex == -2
  }

  /** One pass of the inner `for` body: parse the byte; on a completed frame store it as
      the ACK (first frame) or append it to the data frames, then either stop (enough
      frames) or reset to hunting; finally advance the index by one. */
  function Step(s: Reader, b: Byte, expected: int): Reader
  {
    var (index, packet) := DecodeAndCapture(s.byteIndex, b, s.packet);
    if index == -2 then
      var ack := if s.packetIndex == 0 then packet else s.ack;
      var rx := if s.packetIndex == 0 then s.rx else s.rx + [packet];
      if expected == s.packetIndex + 1 then Reader(-2, packet, s.packetIndex + 1, ack, rx)
      else Reader(-1 + 1, [], s.packetIndex + 1, ack, rx)
    else
      Reader(index + 1, packet, s.packetIndex, s.ack, s.rx)
  }

  /** The bytes of one poll, fed in order until the loop stops; the rest are left unread. */
  function FeedBatch(s: Reader, bytes: seq<Byte>, expected: int): Reader
    decreases |bytes|
  {
    if |bytes| == 0 || Done(s) then s else FeedBatch(Step(s, bytes[0], expected), bytes[1..], expected)
  }

  /** The polls, in order, until the loop stops, the polls run out, or one raises. */
  function RunPolls(s: Reader, polls: seq<Poll>, expected: int): (Reader, Option<string>)
    decreases |polls|
  {
    if |polls| == 0 || Done(s) then (s, None)
    else
      match polls[0]
      case Fault(reason) => (s, Some(reason))
      case Bytes(data) => RunPolls(FeedBatch(s, data, expected), polls[1..], expected)
  }

  const SHORTFALL := "did not receive all the expected data"

  /** The verdict after the loop: success only with exactly `expected` frames, a last packet
      of at least six bytes and the parser stopped on END; otherwise the packet in
      progress is appended to the data frames for diagnosis. */
  function Finish(s: Reader, expected: int): ComResult
  {
    if expected != s.packetIndex || |s.packet| < 6 || s.byteIndex != -2 then
      ComResult(false, SHORTFALL, s.ack, s.rx + [s.packet])
    else
      ComResult(true, "", s.ack, s.rx)
  }

  /** Frames that end with END and hold at least the six framing bytes. */
  predicate Terminated(p: seq<int>)
  {
    |p| >= 6 && p[|p| - 1] == END
  }

  /** `read_response` on a port that is open or not, given the polls it will see. */
  function ReadResult(isOpen: bool, expected: int, polls: seq<Poll>): (r: ComResult)
    ensures !isOpen ==> r == FailedResult("")
    ensures r.status ==> isOpen && expected >= 1 && |r.rxPackets| == expected - 1
    ensures r.status ==> Terminated(r.ackPacket) && forall i :: 0 <= i < |r.rxPackets| ==> Terminated(r.rxPackets[i])
    ensures isOpen && NoFaults(polls) && !r.status ==> r.exception == SHORTFALL && |r.rxPackets| >= 1
  {
    if !isOpen then FailedResult("")
    else
      var (s, fault) := RunPolls(Start(), polls, expected);
      RunPollsKeeps(Start(), polls, expected);
      if fault.Some? then ComResult(false, fault.value, s.ack, s.rx)
      else Finish(s, expected)
  }

  // ---------------------------------------------------------------------------
  // The reader invariant

  /** Every poll found bytes; none raised. */
  predicate NoFaults(polls: seq<Poll>)
  {
    forall i :: 0 <= i < |polls| ==> polls[i].Bytes?
  }

  /** What holds of the loop variables between bytes: the index never stays below 0
      except when stopped or before the first byte; while capturing, at least as many
      bytes are held as the index says; every frame stored is terminated; the ACK slot is
      filled once a frame completed and the data frames are the completed frames after it. */
  predicate Coherent(s: Reader, expected: int)
  {
    && s.packetIndex >= 0
    && (s.byteIndex >= 0 ==> |s.packet| >= s.byteIndex)
    && (s.byteIndex < 0 ==> s.byteIndex == -2 || (s.byteIndex == -1 && s.packet == []))
    && (Done(s) ==> s.packetIndex == expected && s.packetIndex >= 1 && Terminated(s.packet))
    && (s.packetIndex >= 1 ==> Terminated(s.ack) && |s.rx| == s.packetIndex - 1)
    && (s.packetIndex == 0 ==> |s.rx| == 0)
    && forall i :: 0 <= i < |s.rx| ==> Terminated(s.rx[i])
  }

  lemma StepKeeps(s: Reader, b: Byte, expected: int)
    requires Coherent(s, expected) && !Done(s)
    ensures Coherent(Step(s, b, expected), expected)
  {
    var (index, packet) := DecodeAndCapture(s.byteIndex, b, s.packet);
    if index == -2 {
      assert s.byteIndex >= 0 && s.byteIndex == EndOffset(s.packet);
      assert Terminated(packet);
    }
  }

  lemma {:induction false} FeedBatchKeeps(s: Reader, bytes: seq<Byte>, expected: int)
    requires Coherent(s, expected)
    ensures Coherent(FeedBatch(s, bytes, expected), expected)
    decreases |bytes|
  {
    if |bytes| > 0 && !Done(s) {
      StepKeeps(s, bytes[0], expected);
      FeedBatchKeeps(Step(s, bytes[0], expected), bytes[1..], expected);
    }
  }

  lemma {:induction false} RunPollsKeeps(s: Reader, polls: seq<Poll>, expected: int)
    requires Coherent(s, expected)
    ensures Coherent(RunPolls(s, polls, expected).0, expected)
    ensures NoFaults(polls) ==> RunPolls(s, polls, expected).1 == None
    decreases |polls|
  {
    if |polls| > 0 && !Done(s) && polls[0].Bytes? {
      FeedBatchKeeps(s, polls[0].data, expected);
      RunPollsKeeps(FeedBatch(s, polls[0].data, expected), polls[1..], expected);
      if NoFaults(polls) {
        assert NoFaults(polls[1..]) by {
          forall i | 0 <= i < |polls[1..]| ensures polls[1..][i].Bytes? {
            assert polls[1..][i] == polls[i + 1];
          }
        }
      }
    }
  }

  // ---------------------------------------------------------------------------
  // Frames through the parser

  /** The shape the parser relies on: START first, the length byte matching the frame's
      size, and six bytes of framing. Whether the last byte is END decides the outcome. */
  predicate Framed(f: seq<Byte>)
  {
    |f| >= 6 && f[0] == START && f[3] == |f| - 6
  }

  predicate WireFrame(f: seq<Byte>)
  {
    Framed(f) && f[|f| - 1] == END
  }

  /** A reader at a frame boundary: hunting for START, or just past a completed frame. */
  predicate Ready(s: Reader)
  {
    s.packet == [] && (s.byteIndex == -1 || s.byteIndex == 0) && s.packetIndex >= 0
  }

  /** The reader after one framed run of bytes: a frame ending in END is stored (and the
      loop stops if it was the last one expected); any other final byte is kept as the
      first captured byte of the next packet. */
  function AfterFrame(s: Reader, f: seq<Byte>, expected: int): Reader
    requires |f| >= 1
  {
    if f[|f| - 1] == END then
      var ack := if s.packetIndex == 0 then f else s.ack;
      var rx := if s.packetIndex == 0 then s.rx else s.rx + [f];
      if expected == s.packetIndex + 1 then Reader(-2, f, s.packetIndex + 1, ack, rx)
      else Reader(0, [], s.packetIndex + 1, ack, rx)
    else
      Reader(0, [f[|f| - 1]], s.packetIndex, s.ack, s.rx)
  }

  lemma {:induction false} FeedFrameTail(s: Reader, f: seq<Byte>, k: int, rest: seq<Byte>, expected: int)
    requires Framed(f) && 1 <= k < |f|
    ensures FeedBatch(Reader(k, f[..k], s.packetIndex, s.ack, s.rx), f[k..] + rest, expected)
         == FeedBatch(AfterFrame(s, f, expected), rest, expected)
    decreases |f| - k
  {
    var cur := Reader(k, f[..k], s.packetIndex, s.ack, s.rx);
    var bytes := f[k..] + rest;
    assert bytes[0] == f[k];
    assert bytes[1..] == f[k + 1..] + rest;
    if k < |f| - 1 {
      assert EndOffset(f[..k]) != k;
      assert f[..k] + [f[k]] == f[..k + 1];
      assert Step(cur, f[k], expected) == Reader(k + 1, f[..k + 1], s.packetIndex, s.ack, s.rx);
      FeedFrameTail(s, f, k + 1, rest, expected);
    } else {
      assert EndOffset(f[..k]) == k;
      assert f[..k] + [f[k]] == f;
      assert Step(cur, f[k], expected) == AfterFrame(s, f, expected);
      assert f[k + 1..] + rest == rest;
    }
  }

  /** A framed run of bytes is captured whole from a frame boundary. */
  lemma FeedFrame(s: Reader, f: seq<Byte>, rest: seq<Byte>, expected: int)
    requires Ready(s) && Framed(f)
    ensures FeedBatch(s, f + rest, expected) == FeedBatch(AfterFrame(s, f, expected), rest, expected)
  {
    var bytes := f + rest;
    assert bytes[0] == START;
    assert bytes[1..] == f[1..] + rest;
    assert f[..1] == [START];
    assert Step(s, START, expected) == Reader(1, f[..1], s.packetIndex, s.ack, s.rx);
    FeedFrameTail(s, f, 1, rest, expected);
  }

  function Concat(frames: seq<seq<Byte>>): seq<Byte>
  {
    if |frames| == 0 then [] else frames[0] + Concat(frames[1..])
  }

  /** The bytes the polls found, in order (a poll that raised contributes none). */
  function Stream(polls: seq<Poll>): seq<Byte>
  {
    if |polls| == 0 then []
    else (match polls[0] case Bytes(data) => data case Fault(_) => []) + Stream(polls[1..])
  }

  /** The reader after a run of complete frames from a frame boundary: stopped on the
      last one if that completes the expected count, otherwise at the next boundary. */
  function Collected(s: Reader, frames: seq<seq<Byte>>, expected: int): Reader
    requires |frames| >= 1
  {
    var ack := if s.packetIndex == 0 then frames[0] else s.ack;
    var rx := if s.packetIndex == 0 then s.rx + frames[1..] else s.rx + frames;
    var count := s.packetIndex + |frames|;
    if expected == count then Reader(-2, frames[|frames| - 1], count, ack, rx)
    else Reader(0, [], count, ack, rx)
  }

  lemma {:induction false} FeedFrames(s: Reader, frames: seq<seq<Byte>>, rest: seq<Byte>, expected: int)
    requires Ready(s) && |frames| >= 1 && expected >= s.packetIndex + |frames|
    requires forall i :: 0 <= i < |frames| ==> WireFrame(frames[i])
    ensures FeedBatch(s, Concat(frames) + rest, expected) == FeedBatch(Collected(s, frames, expected), rest, expected)
    decreases |frames|
  {
    var f := frames[0];
    var tail := Concat(frames[1..]) + rest;
    assert Concat(frames) + rest == f + tail;
    assert WireFrame(f);
    FeedFrame(s, f, tail, expected);
    var ack := if s.packetIndex == 0 then f else s.ack;
    var rx := if s.packetIndex == 0 then s.rx else s.rx + [f];
    if |frames| == 1 {
      assert frames[1..] == [];
      assert tail == rest;
      assert [f] == frames;
      assert AfterFrame(s, f, expected) == Collected(s, frames, expected);
    } else {
      var next := Reader(0, [], s.packetIndex + 1, ack, rx);
      assert AfterFrame(s, f, expected) == next;
      assert forall i :: 0 <= i < |frames[1..]| ==> WireFrame(frames[1..][i]) by {
        forall i | 0 <= i < |frames[1..]| ensures WireFrame(frames[1..][i]) {
          assert frames[1..][i] == frames[i + 1];
        }
      }
      FeedFrames(next, frames[1..], rest, expected);
      CollectedAfterFirst(s, frames, expected);
    }
  }

  lemma CollectedAfterFirst(s: Reader, frames: seq<seq<Byte>>, expected: int)
    requires |frames| >= 2 && s.packetIndex >= 0
    ensures Collected(Reader(0, [], s.packetIndex + 1,
                             if s.packetIndex == 0 then frames[0] else s.ack,
                             if s.packetIndex == 0 then s.rx else s.rx + [frames[0]]),
                      frames[1..], expected)
         == Collected(s, frames, expected)
  {
    var tail := frames[1..];
    assert tail[|tail| - 1] == frames[|frames| - 1];
    assert s.rx + [frames[0]] + tail == s.rx + frames by {
      assert [frames[0]] + tail == frames;
    }
  }

  /** Feeding two runs of bytes is feeding their concatenation. */
  lemma {:induction false} FeedBatchAppend(s: Reader, a: seq<Byte>, b: seq<Byte>, expected: int)
    ensures FeedBatch(s, a + b, expected) == FeedBatch(FeedBatch(s, a, expected), b, expected)
    decreases |a|
  {
    if |a| == 0 {
      assert a + b == b;
    } else if !Done(s) {
      assert (a + b)[0] == a[0];
      assert (a + b)[1..] == a[1..] + b;
      FeedBatchAppend(Step(s, a[0], expected), a[1..], b, expected);
    }
  }

  /** How the bytes are split across polls does not matter, as long as none raises. */
  lemma {:induction false} RunPollsIsFeed(s: Reader, polls: seq<Poll>, expected: int)
    requires NoFaults(polls)
    ensures RunPolls(s, polls, expected) == (FeedBatch(s, Stream(polls), expected), None)
    decreases |polls|
  {
    if |polls| > 0 && !Done(s) {
      assert polls[0].Bytes?;
      assert NoFaults(polls[1..]) by {
        forall i | 0 <= i < |polls[1..]| ensures polls[1..][i].Bytes? {
          assert polls[1..][i] == polls[i + 1];
        }
      }
      RunPollsIsFeed(FeedBatch(s, polls[0].data, expected), polls[1..], expected);
      FeedBatchAppend(s, polls[0].data, Stream(polls[1..]), expected);
    } else if |polls| > 0 {
      assert FeedBatch(s, Stream(polls), expected) == s;
    }
  }

  /** One byte other than START while hunting leaves the reader at a frame boundary. */
  lemma NoiseByteDropped(noise: seq<Byte>, expected: int)
    requires |noise| == 1 && noise[0] != START
    ensures FeedBatch(Start(), noise, expected) == Reader(0, [], 0, [], [])
  {
    assert noise[1..] == [];
  }

  /** The bytes of the expected frames, after at most one stray byte, stop the reader on
      the last frame with every frame collected. */
  lemma FeedExpectedFrames(noise: seq<Byte>, frames: seq<seq<Byte>>, rest: seq<Byte>)
    requires |noise| <= 1 && (|noise| == 1 ==> noise[0] != START)
    requires |frames| >= 1 && forall i :: 0 <= i < |frames| ==> WireFrame(frames[i])
    ensures FeedBatch(Start(), noise + Concat(frames) + rest, |frames|)
         == Reader(-2, frames[|frames| - 1], |frames|, frames[0], frames[1..])
  {
    var n := |frames|;
    var s := Start();
    assert noise + Concat(frames) + rest == noise + (Concat(frames) + rest);
    FeedBatchAppend(Start(), noise, Concat(frames) + rest, n);
    if |noise| == 1 {
      NoiseByteDropped(noise, n);
      s := Reader(0, [], 0, [], []);
    } else {
      assert noise == [];
    }
    FeedFrames(s, frames, rest, n);
    var done := Collected(s, frames, n);
    assert done == Reader(-2, frames[n - 1], n, frames[0], frames[1..]) by {
      assert [] + frames[1..] == frames[1..];
    }
    assert FeedBatch(done, rest, n) == done;
  }

  /** Round trip: when the device sends the expected number of well-formed frames (ACK
      first), preceded by at most one stray byte other than START and followed by anything,
      in however many polls, the read succeeds with the first frame as the ACK and the
      others as the data frames, in order. The trailing bytes are never read. */
  lemma ReadFramesRoundTrip(noise: seq<Byte>, frames: seq<seq<Byte>>, rest: seq<Byte>, polls: seq<Poll>)
    requires |noise| <= 1 && (|noise| == 1 ==> noise[0] != START)
    requires |frames| >= 1 && forall i :: 0 <= i < |frames| ==> WireFrame(frames[i])
    requires NoFaults(polls) && Stream(polls) == noise + Concat(frames) + rest
    ensures ReadResult(true, |frames|, polls) == ComResult(true, "", frames[0], frames[1..])
  {
    RunPollsIsFeed(Start(), polls, |frames|);
    FeedExpectedFrames(noise, frames, rest);
  }

  /** Encoder and parser agree: a non-empty frame built by `get_npc_packet`, delivered in
      any split of fault-free polls, is read back as the ACK of a one-packet read. */
  lemma EncodeThenRead(toAddr: int, fromAddr: int, payload: seq<int>, polls: seq<Poll>)
    requires GetNpcPacket(toAddr, fromAddr, payload).Success?
    requires GetNpcPacket(toAddr, fromAddr, payload).value != []
    requires NoFaults(polls) && Stream(polls) == GetNpcPacket(toAddr, fromAddr, payload).value
    ensures ReadResult(true, 1, polls) == ComResult(true, "", GetNpcPacket(toAddr, fromAddr, payload).value, [])
  {
    var f := GetNpcPacket(toAddr, fromAddr, payload).value;
    assert WireFrame(f);
    assert Concat([f]) == f by {
      assert Concat([f]) == f + Concat([]);
    }
    assert Stream(polls) == [] + Concat([f]) + [];
    ReadFramesRoundTrip([], [f], [], polls);
  }

  // ---------------------------------------------------------------------------
  // A wrong END byte, as written

  /** After a framed run whose last byte is not END, the parser holds that byte at index 0,
      so every later packet byte sits one place further along than its index says: the
      END offset it computes, `5 + packet[3]`, reads the next frame's from-address (`f[2]`)
      instead of its length. `f[..j]` has been captured after the stray byte `b` when the
      index is `j`; the packet closes after `6 + f[2] as int` bytes of `f`, or is still open when
      `f` runs out before then. */
  lemma {:induction false} LaggedTail(s: Reader, b: Byte, f: seq<Byte>, j: int, rest: seq<Byte>, expected: int)
    requires |f| >= 3 && 0 <= j <= |f| && j < 6 + f[2] as int
    ensures 6 + f[2] as int <= |f| ==>
              (FeedBatch(Reader(j, [b] + f[..j], s.packetIndex, s.ack, s.rx), f[j..] + rest, expected)
               == FeedBatch(AfterFrame(s, [b] + f[..6 + f[2] as int], expected), f[6 + f[2] as int..] + rest, expected))
    ensures 6 + f[2] as int > |f| ==>
              (FeedBatch(Reader(j, [b] + f[..j], s.packetIndex, s.ack, s.rx), f[j..], expected)
               == Reader(|f|, [b] + f, s.packetIndex, s.ack, s.rx))
    decreases |f| - j
  {
    var n := 6 + f[2] as int;
    var cur := Reader(j, [b] + f[..j], s.packetIndex, s.ack, s.rx);
    if j == |f| {
      assert f[..j] == f;
      assert f[j..] == [];
    } else {
      assert ([b] + f[..j]) + [f[j]] == [b] + f[..j + 1];
      if j < n - 1 {
        assert EndOffset([b] + f[..j]) != j by {
          if j >= 3 {
            assert ([b] + f[..j])[3] == f[2];
          }
        }
        assert Step(cur, f[j], expected) == Reader(j + 1, [b] + f[..j + 1], s.packetIndex, s.ack, s.rx);
        assert (f[j..] + rest)[0] == f[j] && (f[j..] + rest)[1..] == f[j + 1..] + rest;
        assert f[j..][0] == f[j] && f[j..][1..] == f[j + 1..];
        LaggedTail(s, b, f, j + 1, rest, expected);
      } else {
        assert ([b] + f[..j])[3] == f[2];
        assert EndOffset([b] + f[..j]) == j;
        assert Step(cur, f[j], expected) == AfterFrame(s, [b] + f[..n], expected);
        assert (f[j..] + rest)[0] == f[j] && (f[j..] + rest)[1..] == f[n..] + rest;
      }
    }
  }

  /** `decode_and_capture` after a wrong END byte, for every frame that follows: with the
      stray byte `b` in front, a well-formed frame `f` is stored as `[b] + f` exactly when
      its from-address equals its payload length. A larger from-address makes the parser
      swallow `f`'s END and keep capturing; a smaller one closes the packet early, on
      whatever byte of `f` sits at the misread offset. */
  lemma BadEndThenFrame(s: Reader, garbled: seq<Byte>, f: seq<Byte>, rest: seq<Byte>, expected: int)
    requires Ready(s) && Framed(garbled) && garbled[|garbled| - 1] != END && WireFrame(f)
    ensures f[2] == f[3] ==>
              (FeedBatch(s, garbled + f + rest, expected)
               == FeedBatch(AfterFrame(s, [garbled[|garbled| - 1]] + f, expected), rest, expected))
    ensures f[2] > f[3] ==>
              (FeedBatch(s, garbled + f, expected)
               == Reader(|f|, [garbled[|garbled| - 1]] + f, s.packetIndex, s.ack, s.rx))
    ensures f[2] < f[3] ==>
              (FeedBatch(s, garbled + f + rest, expected)
               == FeedBatch(AfterFrame(s, [garbled[|garbled| - 1]] + f[..6 + f[2] as int], expected), f[6 + f[2] as int..] + rest, expected))
  {
    var b := garbled[|garbled| - 1];
    var lagged := Reader(0, [b], s.packetIndex, s.ack, s.rx);
    assert AfterFrame(s, garbled, expected) == lagged;
    assert f[..0] == [] && f[0..] == f;
    assert [b] + f[..0] == [b];
    if f[2] > f[3] {
      assert garbled + f == garbled + f + [];
      FeedFrame(s, garbled, f, expected);
      LaggedTail(s, b, f, 0, [], expected);
    } else {
      assert garbled + f + rest == garbled + (f + rest);
      FeedFrame(s, garbled, f + rest, expected);
      LaggedTail(s, b, f, 0, rest, expected);
      if f[2] == f[3] {
        assert f[..6 + f[2] as int] == f;
        assert f[6 + f[2] as int..] + rest == rest;
      }
    }
  }

  // ---------------------------------------------------------------------------
  // A wrong END byte, resynchronising

  /** The parser as the design describes it: a byte other than END where END is due
      discards the packet in progress and returns to a frame boundary with nothing
      captured. Every other byte is handled as `Step` handles it. */
  function ResyncStep(s: Reader, b: Byte, expected: int): Reader
  {
    if s.byteIndex >= 0 && s.byteIndex == EndOffset(s.packet) && b != END then
      Reader(0, [], s.packetIndex, s.ack, s.rx)
    else
      Step(s, b, expected)
  }

  function ResyncFeed(s: Reader, bytes: seq<Byte>, expected: int): Reader
    decreases |bytes|
  {
    if |bytes| == 0 || Done(s) then s else ResyncFeed(ResyncStep(s, bytes[0], expected), bytes[1..], expected)
  }

  /** The resynchronising reader after one framed run: stored as before when it ends in
      END, dropped whole otherwise. */
  function ResyncAfterFrame(s: Reader, f: seq<Byte>, expected: int): Reader
    requires |f| >= 1
  {
    if f[|f| - 1] == END then AfterFrame(s, f, expected) else Reader(0, [], s.packetIndex, s.ack, s.rx)
  }

  lemma {:induction false} ResyncFrameTail(s: Reader, f: seq<Byte>, k: int, rest: seq<Byte>, expected: int)
    requires Framed(f) && 1 <= k < |f|
    ensures ResyncFeed(Reader(k, f[..k], s.packetIndex, s.ack, s.rx), f[k..] + rest, expected)
         == ResyncFeed(ResyncAfterFrame(s, f, expected), rest, expected)
    decreases |f| - k
  {
    var cur := Reader(k, f[..k], s.packetIndex, s.ack, s.rx);
    var bytes := f[k..] + rest;
    assert bytes[0] == f[k];
    assert bytes[1..] == f[k + 1..] + rest;
    if k < |f| - 1 {
      assert EndOffset(f[..k]) != k;
      assert f[..k] + [f[k]] == f[..k + 1];
      assert ResyncStep(cur, f[k], expected) == Reader(k + 1, f[..k + 1], s.packetIndex, s.ack, s.rx);
      ResyncFrameTail(s, f, k + 1, rest, expected);
    } else {
      assert EndOffset(f[..k]) == k;
      assert f[..k] + [f[k]] == f;
      assert ResyncStep(cur, f[k], expected) == ResyncAfterFrame(s, f, expected);
      assert f[k + 1..] + rest == rest;
    }
  }

  /** A framed run of bytes is consumed whole from a frame boundary. */
  lemma ResyncFrame(s: Reader, f: seq<Byte>, rest: seq<Byte>, expected: int)
    requires Ready(s) && Framed(f)
    ensures ResyncFeed(s, f + rest, expected) == ResyncFeed(ResyncAfterFrame(s, f, expected), rest, expected)
  {
    var bytes := f + rest;
    assert bytes[0] == START;
    assert bytes[1..] == f[1..] + rest;
    assert f[..1] == [START];
    assert ResyncStep(s, START, expected) == Reader(1, f[..1], s.packetIndex, s.ack, s.rx);
    ResyncFrameTail(s, f, 1, rest, expected);
  }

  lemma {:induction false} ResyncFrames(s: Reader, frames: seq<seq<Byte>>, rest: seq<Byte>, expected: int)
    requires Ready(s) && |frames| >= 1 && expected >= s.packetIndex + |frames|
    requires forall i :: 0 <= i < |frames| ==> WireFrame(frames[i])
    ensures ResyncFeed(s, Concat(frames) + rest, expected) == ResyncFeed(Collected(s, frames, expected), rest, expected)
    decreases |frames|
  {
    var f := frames[0];
    var tail := Concat(frames[1..]) + rest;
    assert Concat(frames) + rest == f + tail;
    assert WireFrame(f);
    ResyncFrame(s, f, tail, expected);
    var ack := if s.packetIndex == 0 then f else s.ack;
    var rx := if s.packetIndex == 0 then s.rx else s.rx + [f];
    if |frames| == 1 {
      assert frames[1..] == [];
      assert tail == rest;
      assert [f] == frames;
      assert ResyncAfterFrame(s, f, expected) == Collected(s, frames, expected);
    } else {
      var next := Reader(0, [], s.packetIndex + 1, ack, rx);
      assert ResyncAfterFrame(s, f, expected) == next;
      assert forall i :: 0 <= i < |frames[1..]| ==> WireFrame(frames[1..][i]) by {
        forall i | 0 <= i < |frames[1..]| ensures WireFrame(frames[1..][i]) {
          assert frames[1..][i] == frames[i + 1];
        }
      }
      ResyncFrames(next, frames[1..], rest, expected);
      CollectedAfterFirst(s, frames, expected);
    }
  }

  /** Round trip for the resynchronising parser: a garbled frame (right shape, wrong last
      byte) followed by the expected well-formed frames reads back exactly those frames,
      whatever the garbled frame's bytes and whatever comes after. */
  lemma ResyncRoundTrip(garbled: seq<Byte>, frames: seq<seq<Byte>>, rest: seq<Byte>)
    requires Framed(garbled) && garbled[|garbled| - 1] != END
    requires |frames| >= 1 && forall i :: 0 <= i < |frames| ==> WireFrame(frames[i])
    ensures Finish(ResyncFeed(Start(), garbled + Concat(frames) + rest, |frames|), |frames|)
         == ComResult(true, "", frames[0], frames[1..])
  {
    var n := |frames|;
    assert garbled + Concat(frames) + rest == garbled + (Concat(frames) + rest);
    ResyncFrame(Start(), garbled, Concat(frames) + rest, n);
    var boundary := Reader(0, [], 0, [], []);
    assert ResyncAfterFrame(Start(), garbled, n) == boundary;
    ResyncFrames(boundary, frames, rest, n);
    var done := Collected(boundary, frames, n);
    assert done == Reader(-2, frames[n - 1], n, frames[0], frames[1..]) by {
      assert [] + frames[1..] == frames[1..];
    }
    assert ResyncFeed(done, rest, n) == done;
  }

  /** Both parsers on one input: a corrupted copy of a one-byte frame from address 1,
      then an intact one-byte frame from address 2. As written, the intact frame's END is
      swallowed and the read reports a shortfall with the intact frame, one stray byte in
      front, as the packet in progress; resynchronising reads the intact frame as the ACK. */
  lemma CorruptEndLosesNextFrame()
    ensures ReadResult(true, 1, [Bytes([0x3E, 0, 1, 1, 1, 0xFD, 0x00] + [0x3E, 0, 2, 1, 1, 0xFC, 0x3C])])
         == ComResult(false, SHORTFALL, [], [[0x00, 0x3E, 0, 2, 1, 1, 0xFC, 0x3C]])
    ensures Finish(ResyncFeed(Start(), [0x3E, 0, 1, 1, 1, 0xFD, 0x00] + [0x3E, 0, 2, 1, 1, 0xFC, 0x3C], 1), 1)
         == ComResult(true, "", [0x3E, 0, 2, 1, 1, 0xFC, 0x3C], [])
  {
    var corrupt: seq<Byte> := [0x3E, 0, 1, 1, 1, 0xFD, 0x00];
    var good: seq<Byte> := [0x3E, 0, 2, 1, 1, 0xFC, 0x3C];
    var polls := [Bytes(corrupt + good)];
    assert NoFaults(polls);
    assert Stream(polls) == corrupt + good;
    RunPollsIsFeed(Start(), polls, 1);
    BadEndThenFrame(Start(), corrupt, good, [], 1);
    assert [corrupt[|corrupt| - 1]] + good == [0x00, 0x3E, 0, 2, 1, 1, 0xFC, 0x3C];
    assert Concat([good]) == good by {
      assert Concat([good]) == good + Concat([]);
    }
    assert corrupt + good == corrupt + Concat([good]) + [];
    ResyncRoundTrip(corrupt, [good], []);
  }

  /** Fewer than six bytes after a frame boundary are captured as they come. */
  lemma {:induction false} FeedShort(s: Reader, bytes: seq<Byte>, expected: int)
    requires 0 <= s.byteIndex == |s.packet| && |s.packet| + |bytes| <= 5
    ensures FeedBatch(s, bytes, expected)
         == Reader(|s.packet| + |bytes|, s.packet + bytes, s.packetIndex, s.ack, s.rx)
    decreases |bytes|
  {
    if |bytes| == 0 {
      assert s.packet + bytes == s.packet;
    } else {
      assert EndOffset(s.packet) >= 5;
      FeedShort(Step(s, bytes[0], expected), bytes[1..], expected);
      assert s.packet + [bytes[0]] + bytes[1..] == s.packet + bytes;
    }
  }

  /** A read that ends before the expected number of frames arrived reports the shortfall
      and hands back the packet in progress as the last data frame. */
  lemma ShortfallKeepsPartial(frames: seq<seq<Byte>>, partial: seq<Byte>, expected: int)
    requires |frames| >= 1 && forall i :: 0 <= i < |frames| ==> WireFrame(frames[i])
    requires expected > |frames| && |partial| <= 5
    ensures ReadResult(true, expected, [Bytes(Concat(frames) + partial)])
         == ComResult(false, SHORTFALL, frames[0], frames[1..] + [partial])
  {
    var polls := [Bytes(Concat(frames) + partial)];
    var final := Reader(|partial|, partial, |frames|, frames[0], frames[1..]);
    assert FeedBatch(Start(), Concat(frames) + partial, expected) == final by {
      FeedFrames(Start(), frames, partial, expected);
      var boundary := Reader(0, [], |frames|, frames[0], frames[1..]);
      assert Collected(Start(), frames, expected) == boundary by {
        assert [] + frames[1..] == frames[1..];
      }
      FeedShort(boundary, partial, expected);
      assert [] + partial == partial;
    }
    assert RunPolls(Start(), polls, expected) == (final, None) by {
      assert NoFaults(polls);
      assert Stream(polls) == Concat(frames) + partial;
      RunPollsIsFeed(Start(), polls, expected);
    }
    assert Finish(final, expected) == ComResult(false, SHORTFALL, frames[0], frames[1..] + [partial]);
  }

  // ---------------------------------------------------------------------------
  // The port

  /** pyserial's default line speed when none is configured. */
  const DEFAULT_BAUDRATE := 9600

  /** The pyserial device held while the port is open: the port it is bound to, its line
      speed and the level of its DTR line. */
  datatype SerialDevice = SerialDevice(port: string, baudrate: int, dtr: bool)

  /** What writing a frame to the device does: report a byte count, or raise. */
  datatype WriteOutcome = Wrote(count: int) | WriteFault(reason: string)

  const NOT_OPENED := "Connection must be opened first."
  const NOT_OPEN := "Connection must be open first."

  /** A serial-port NPC transport. `portPresent` is whether the connection string matched
      a listed port at the last look-up; `written` holds every frame handed to the
      device's write, `outputResets` counts output-buffer resets, and `dtrLevels` the
      levels driven onto the DTR line of an open device, in order. */
  class NpcSerialPort {
    const connection: string
    const baudrate: Option<int>
    var portPresent: bool
    var device: Option<SerialDevice>
    var written: seq<seq<Byte>>
    var outputResets: nat
    var dtrLevels: seq<bool>

    /** A port for `connection`; the device is not opened. */
    constructor(connection: string, portListed: bool, baudrate: Option<int>)
      ensures this.connection == connection && this.baudrate == baudrate
      ensures portPresent == portListed && device == None
      ensures written == [] && outputResets == 0 && dtrLevels == []
    {
      this.connection := connection;
      this.baudrate := baudrate;
      portPresent := portListed;
      device := None;
      written := [];
      outputResets := 0;
      dtrLevels := [];
    }

    /** The connection is open exactly when a device is held. */
    predicate CheckOpen()
      reads this
    {
      device.Some?
    }

    /** Opens the device if the port is listed. On Linux the HUPCL flag is cleared and the
        DTR line keeps pyserial's default (asserted); elsewhere DTR is deasserted before
        opening, so that opening does not reset the board. A listed port that fails to
        open drops the device; an unlisted one leaves it as it was. */
    method Open(portListed: bool, openFault: bool, linux: bool) returns (ok: bool)
      modifies this
      ensures portPresent == portListed
      ensures ok <==> portListed && !openFault
      ensures !portListed ==> device == old(device)
      ensures portListed && openFault ==> device == None
      ensures ok ==> device == Some(SerialDevice(connection, if baudrate.Some? then baudrate.value else DEFAULT_BAUDRATE, linux))
      ensures written == old(written) && outputResets == old(outputResets) && dtrLevels == old(dtrLevels)
    {
      portPresent := portListed;
      if !portListed {
        return false;
      }
      var speed := if baudrate.Some? then baudrate.value else DEFAULT_BAUDRATE;
      var dtr := true;
      if !linux {
        dtr := false;
      }
      if openFault {
        device := None;
        return false;
      }
      device := Some(SerialDevice(connection, speed, dtr));
      return true;
    }

    /** Closes and drops the device; closing a port that is not open succeeds at once. */
    method Close(closeFault: bool) returns (ok: bool)
      modifies this
      ensures !old(CheckOpen()) ==> ok && device == old(device)
      ensures old(CheckOpen()) ==> device == None && (ok <==> !closeFault)
      ensures portPresent == old(portPresent) && written == old(written)
      ensures outputResets == old(outputResets) && dtrLevels == old(dtrLevels)
    {
      if !CheckOpen() {
        return true;
      }
      device := None;
      return !closeFault;
    }

    /** Frames the instruction to `address` from the host (address 0) and writes it. The
        result is true when every byte of the frame was written; a write that raises gives
        its message. The output buffer is reset whether or not the write raised. Building
        the frame raises ValueError before anything is written when a field is not an
        octet, and an address or payload too large gives an empty frame, which a write of
        zero bytes reports as sent. */
    method ExecuteInstruction(address: int, payload: seq<int>, write: WriteOutcome) returns (r: Result<ComResult>)
      modifies this
      ensures !old(CheckOpen()) ==> r == Success(FailedResult(NOT_OPENED))
      ensures old(CheckOpen()) && GetNpcPacket(address, 0, payload).Failure? ==>
                r == Failure(GetNpcPacket(address, 0, payload).error)
      ensures !old(CheckOpen()) || GetNpcPacket(address, 0, payload).Failure? ==>
                written == old(written) && outputResets == old(outputResets)
      ensures old(CheckOpen()) && GetNpcPacket(address, 0, payload).Success? ==>
                var packet := GetNpcPacket(address, 0, payload).value;
                && written == old(written) + [packet]
                && outputResets == old(outputResets) + 1
                && r.Success?
                && (r.value.status <==> write.Wrote? && write.count == |packet|)
                && (write.WriteFault? ==> r.value == FailedResult(write.reason))
      ensures device == old(device) && portPresent == old(portPresent) && dtrLevels == old(dtrLevels)
    {
      if !CheckOpen() {
        return Success(FailedResult(NOT_OPENED));
      }
      var built := GetNpcPacket(address, 0, payload);
      if built.Failure? {
        return Failure(built.error);
      }
      var packet := built.value;
      written := written + [packet];
      outputResets := outputResets + 1;
      match write
      case WriteFault(reason) =>
        return Success(FailedResult(reason));
      case Wrote(count) =>
        return Success(ComResult(count == |packet|, "", [], []));
    }

    /** Reads the ACK and the data frames, `expectPackets` frames in all, from the polls
        the port sees before the timeout. */
    method ReadResponse(expectPackets: int, polls: seq<Poll>) returns (response: ComResult)
      ensures response == ReadResult(CheckOpen(), expectPackets, polls)
    {
      if !CheckOpen() {
        return FailedResult("");
      }
      var packet: seq<Byte> := [];
      var byteIndex := -1;
      var packetIndex := 0;
      var ack: seq<Byte> := [];
      var rx: seq<seq<Byte>> := [];
      ghost var outcome := RunPolls(Start(), polls, expectPackets);
      var p := 0;
      while p < |polls| && byteIndex > -2
        invariant 0 <= p <= |polls| && byteIndex >= -2
        invariant RunPolls(Reader(byteIndex, packet, packetIndex, ack, rx), polls[p..], expectPackets) == outcome
      {
        assert polls[p..][1..] == polls[p + 1..];
        match polls[p]
        case Fault(reason) =>
          return ComResult(false, reason, ack, rx);
        case Bytes(data) =>
          ghost var target := FeedBatch(Reader(byteIndex, packet, packetIndex, ack, rx), data, expectPackets);
          var j := 0;
          while j < |data|
            invariant 0 <= j <= |data| && byteIndex >= -1
            invariant FeedBatch(Reader(byteIndex, packet, packetIndex, ack, rx), data[j..], expectPackets) == target
          {
            assert data[j..][1..] == data[j + 1..];
            var decoded := DecodeAndCapture(byteIndex, data[j], packet);
            byteIndex, packet := decoded.0, decoded.1;
            if byteIndex == -2 {
              if packetIndex == 0 {
                ack := packet;
              } else {
                rx := rx + [packet];
              }
              packetIndex := packetIndex + 1;
              if expectPackets == packetIndex {
                assert Reader(byteIndex, packet, packetIndex, ack, rx) == target;
                break;
              }
              byteIndex := -1;
              packet := [];
            }
            byteIndex := byteIndex + 1;
            j := j + 1;
          }
          p := p + 1;
      }
      if expectPackets != packetIndex || |packet| < 6 || byteIndex != -2 {
        rx := rx + [packet];
        return ComResult(false, SHORTFALL, ack, rx);
      }
      return ComResult(true, "", ack, rx);
    }

    /** Pulses the DTR line (inverted, then restored) to reset the board. */
    method HardReset() returns (r: ComResult)
      modifies this
      ensures !old(CheckOpen()) ==> r == FailedResult(NOT_OPEN) && dtrLevels == old(dtrLevels)
      ensures old(CheckOpen()) ==>
                && r == ComResult(true, "", [], [])
                && dtrLevels == old(dtrLevels) + [!old(device).value.dtr, old(device).value.dtr]
      ensures device == old(device) && portPresent == old(portPresent)
      ensures written == old(written) && outputResets == old(outputResets)
    {
      if !CheckOpen() {
        return FailedResult(NOT_OPEN);
      }
      var held := device.value;
      device := Some(held.(dtr := !held.dtr));
      dtrLevels := dtrLevels + [!held.dtr];
      device := Some(held.(dtr := held.dtr));
      dtrLevels := dtrLevels + [held.dtr];
      return ComResult(true, "", [], []);
    }
  }
}
