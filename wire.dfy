/** The two wire layouts of the streamer.

    Length-prefixed stream framing (`VideoSendler::sendVideo` writes it,
    `VideoReceiver::handleClient` reads it): a 4-byte `uint32_t` length in
    host (little-endian) order, then that many bytes of JPEG.

    Metadata-delimited message (`VideoSender::sendFrame`): the JSON text of
    the frame's metadata, one zero byte, then the JPEG bytes. */
module Wire {
  import opened Bytes

  datatype Option<T> = None | Some(value: T)

  // ---------------------------------------------------------------------
  // Length-prefixed stream framing
  // ---------------------------------------------------------------------

  /** The bytes `sendVideo` writes for one encoded buffer: the length,
      truncated to `uint32_t` as `static_cast` does, then the buffer. */
  function Frame(p: seq<byte>): (r: seq<byte>)
    ensures |r| == 4 + |p|
    ensures r[..4] == LE32(ToUint32(|p|)) && r[4..] == p
  {
    LE32(ToUint32(|p|)) + p
  }

  /** The byte stream of a connection on which the frames `ps` were
      written one after the other. */
  function FrameAll(ps: seq<seq<byte>>): (r: seq<byte>)
    ensures |r| >= 4 * |ps|
    ensures r == [] <==> ps == []
  {
    if ps == [] then [] else Frame(ps[0]) + FrameAll(ps[1..])
  }

  /** Appending a frame to the framed stream of `ps` gives the framed
      stream of `ps + [p]`. */
  lemma {:induction false} FrameAllSnoc(ps: seq<seq<byte>>, p: seq<byte>)
    ensures FrameAll(ps + [p]) == FrameAll(ps) + Frame(p)
  {
    if ps == [] {
      assert [] + [p] == [p];
      assert FrameAll([p]) == Frame(p) + FrameAll([]);
    } else {
      assert (ps + [p])[1..] == ps[1..] + [p];
      FrameAllSnoc(ps[1..], p);
    }
  }

  /** Every payload fits the 4-byte length field. */
  predicate Fits(ps: seq<seq<byte>>)
  {
    forall i :: 0 <= i < |ps| ==> |ps[i]| < TWO32
  }

  /** One turn of the receiver's loop: read exactly 4 bytes, then exactly
      as many bytes as they announce. `None` when the stream ends first,
      where `boost::asio::read` throws. No upper bound is put on the
      announced length. */
  function NextFrame(s: seq<byte>): (r: Option<(seq<byte>, seq<byte>)>)
    ensures r.Some? ==> |s| >= 4 && |r.value.0| == DecodeLE32(s[..4]) < TWO32
    ensures r.Some? ==> |r.value.1| < |s| && 4 + |r.value.0| + |r.value.1| == |s|
    ensures r.None? <==> (|s| < 4 || |s| - 4 < DecodeLE32(s[..4]))
  {
    if |s| < 4 then None
    else
      var n := DecodeLE32(s[..4]);
      if |s| - 4 < n then None
      else
        EncodeDecodedLE32(s[..4]);
        assert s == s[..4] + s[4..4 + n] + s[4 + n..];
        Some((s[4..4 + n], s[4 + n..]))
  }

  /** Whatever the receiver takes as a frame is one: the stream is the
      framing of the payload it read, followed by the rest. */
  lemma NextFrameSplits(s: seq<byte>)
    requires NextFrame(s).Some?
    ensures s == Frame(NextFrame(s).value.0) + NextFrame(s).value.1
  {
    var (p, rest) := NextFrame(s).value;
    EncodeDecodedLE32(s[..4]);
    assert LE32(ToUint32(|p|)) == s[..4];
    assert s == s[..4] + p + rest;
  }

  /** The payloads the receiver reads from a whole stream, in order, up to
      the first frame the stream does not hold completely. */
  function Deframe(s: seq<byte>): (ps: seq<seq<byte>>)
    ensures 4 * |ps| <= |s|
    decreases |s|
  {
    match NextFrame(s)
    case None => []
    case Some((p, rest)) => [p] + Deframe(rest)
  }

  /** `Deframe` takes the next frame, if there is one, and goes on after it. */
  lemma DeframeNext(s: seq<byte>)
    ensures NextFrame(s).None? ==> Deframe(s) == []
    ensures NextFrame(s).Some? ==> Deframe(s) == [NextFrame(s).value.0] + Deframe(NextFrame(s).value.1)
  {
  }

  /** The receiver reads back exactly the frame the sender wrote, whatever
      follows it on the stream. */
  lemma NextFrameOfFrame(p: seq<byte>, rest: seq<byte>)
    requires |p| < TWO32
    ensures NextFrame(Frame(p) + rest) == Some((p, rest))
  {
    var s := Frame(p) + rest;
    assert s[..4] == LE32(|p|);
    assert s[4..4 + |p|] == p;
    assert s[4 + |p|..] == rest;
  }

  /** Deframing a stream that starts with a whole frame takes that frame's
      payload and goes on with what follows it. */
  lemma DeframeFrame(p: seq<byte>, rest: seq<byte>)
    requires |p| < TWO32
    ensures Deframe(Frame(p) + rest) == [p] + Deframe(rest)
  {
    NextFrameOfFrame(p, rest);
  }

  /** Deframing the frames written one after another on a stream, followed
      by anything at all, yields those payloads in order and then whatever
      the rest yields. */
  lemma {:induction false} DeframeAppend(ps: seq<seq<byte>>, rest: seq<byte>)
    requires Fits(ps)
    ensures Deframe(FrameAll(ps) + rest) == ps + Deframe(rest)
  {
    if ps == [] {
      assert FrameAll(ps) + rest == rest;
    } else {
      var tail := FrameAll(ps[1..]) + rest;
      calc {
        Deframe(FrameAll(ps) + rest);
        { assert FrameAll(ps) + rest == Frame(ps[0]) + tail; }
        Deframe(Frame(ps[0]) + tail);
        { DeframeFrame(ps[0], tail); }
        [ps[0]] + Deframe(tail);
        { DeframeAppend(ps[1..], rest); }
        [ps[0]] + (ps[1..] + Deframe(rest));
        { assert ps == [ps[0]] + ps[1..]; }
        ps + Deframe(rest);
      }
    }
  }

  /** Round trip of the stream framing: the receiver reads back the
      sender's payloads, the same ones, in the same order. */
  lemma DeframeFrameAll(ps: seq<seq<byte>>)
    requires Fits(ps)
    ensures Deframe(FrameAll(ps)) == ps
  {
    DeframeAppend(ps, []);
    assert FrameAll(ps) + [] == FrameAll(ps);
    assert Deframe([]) == [];
  }

  /** The length field is the only means of resynchronisation: a buffer of
      2^32 bytes or more has its announced length cut to the low 32 bits,
      so the receiver does not read back what was written. */
  lemma TruncatedLengthBreaksRoundTrip(p: seq<byte>)
    requires |p| >= TWO32
    ensures Deframe(Frame(p)) != [p]
  {
    var s := Frame(p);
    var n := ToUint32(|p|);
    assert s[..4] == LE32(n);
    match NextFrame(s)
    case None =>
    case Some((q, rest)) =>
      assert |q| == n < |p|;
      assert Deframe(s) == [q] + Deframe(rest);
      assert Deframe(s)[0] == q != p;
  }

  /** The acknowledgement byte of the stream protocol, the character 'T'. */
  const ACK: byte := 0x54

  // ---------------------------------------------------------------------
  // Metadata-delimited message
  // ---------------------------------------------------------------------

  const NUL: byte := 0

  /** `dataToSend`: the metadata text, one zero byte, the payload. */
  function Message(meta: seq<byte>, payload: seq<byte>): (r: seq<byte>)
    ensures |r| == |meta| + 1 + |payload|
    ensures r[..|meta|] == meta && r[|meta|] == NUL && r[|meta| + 1..] == payload
  {
    meta + [NUL] + payload
  }

  /** The index of the first zero byte of `s`, if there is one. */
  function FirstNul(s: seq<byte>): (r: Option<nat>)
    ensures r.Some? ==> r.value < |s| && s[r.value] == NUL && NoNul(s[..r.value])
    ensures r.None? <==> NoNul(s)
  {
    if |s| == 0 then None
    else if s[0] == NUL then Some(0)
    else match FirstNul(s[1..])
      case None => None
      case Some(k) =>
        assert s[..k + 1] == [s[0]] + s[1..][..k];
        Some(k + 1)
  }

  /** Splitting a message at its first zero byte into the metadata text in
      front of it and the payload after it; `None` when there is no zero
      byte at all. */
  function SplitAtNul(m: seq<byte>): (r: Option<(seq<byte>, seq<byte>)>)
    ensures r.Some? ==> NoNul(r.value.0) && m == Message(r.value.0, r.value.1)
    ensures r.None? <==> NoNul(m)
  {
    match FirstNul(m)
    case None => None
    case Some(k) =>
      assert m == m[..k] + [NUL] + m[k + 1..];
      Some((m[..k], m[k + 1..]))
  }

  /** Round trip of the message layout: when the metadata text has no zero
      byte, splitting at the first zero byte recovers the text and the
      payload unchanged. */
  lemma SplitMessage(meta: seq<byte>, payload: seq<byte>)
    requires NoNul(meta)
    ensures SplitAtNul(Message(meta, payload)) == Some((meta, payload))
  {
    var m := Message(meta, payload);
    assert m[|meta|] == NUL;
  }
}
