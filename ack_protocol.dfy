/** The acknowledgement lock-step between `VideoSendler::sendVideo` and
    `VideoReceiver::handleClient`, as one two-party state machine over the
    connection. The sender writes a frame and then blocks reading one byte;
    the receiver reads a frame and writes 'T' only when it decodes. The
    framing of the bytes themselves is `Wire.Frame`/`Wire.Deframe`; here a
    direction of the connection carries whole payloads. */
module AckProtocol {
  import opened Bytes
  import opened Wire
  import opened Media
  import opened VideoReceiverModel

  /** The state of both ends and of the connection between them. */
  datatype Link = Link(
    /** The buffers the sender is still to write, in order. */
    pending: seq<seq<byte>>,
    /** Written by the sender, not yet read by the receiver. */
    forward: seq<seq<byte>>,
    /** Acknowledgement bytes written by the receiver, not yet read. */
    backward: seq<byte>,
    /** The sender has written a frame and is blocked reading its
        acknowledgement. */
    awaitingAck: bool,
    /** The sender has raised its stop flag. */
    senderStopped: bool,
    /** Every buffer the sender has written. */
    written: seq<seq<byte>>,
    /** The acknowledgements the sender has read. */
    ackedCount: nat,
    /** The frames the receiver has decoded and acknowledged. */
    delivered: seq<Mat>)

  /** Connected, nothing written yet, `all` still to be sent. */
  function Init(all: seq<seq<byte>>): Link
  {
    Link(all, [], [], false, false, [], 0, [])
  }

  datatype Step = SenderWrite | SenderReadAck | ReceiverHandle

  /** A step can be taken: the sender writes only when it is not waiting
      for an acknowledgement, reads only a byte that is there, and the
      receiver reads only a frame that is there. */
  predicate Enabled(l: Link, step: Step)
  {
    match step
    case SenderWrite => !l.senderStopped && !l.awaitingAck && l.pending != []
    case SenderReadAck => !l.senderStopped && l.awaitingAck && l.backward != []
    case ReceiverHandle => l.forward != []
  }

  /** The effect of a step; a step that is not enabled leaves the state as
      it is (the party stays blocked). */
  function Next(l: Link, step: Step, decode: seq<byte> -> Mat): (r: Link)
    ensures r.written + r.pending == l.written + l.pending
    ensures l.written <= r.written && |r.written| <= |l.written| + 1
    ensures l.delivered <= r.delivered && |r.delivered| <= |l.delivered| + 1
  {
    if !Enabled(l, step) then l
    else match step
      case SenderWrite =>
        var p := l.pending[0];
        l.(pending := l.pending[1..], forward := l.forward + [p], awaitingAck := true,
           written := l.written + [p])
      case SenderReadAck =>
        if l.backward[0] == ACK then
          l.(backward := l.backward[1..], awaitingAck := false, ackedCount := l.ackedCount + 1)
        else
          l.(backward := l.backward[1..], senderStopped := true)
      case ReceiverHandle =>
        var p := l.forward[0];
        var m := decode(p);
        if m.EmptyMat? then l.(forward := l.forward[1..])
        else l.(forward := l.forward[1..], backward := l.backward + [ACK], delivered := l.delivered + [m])
  }

  /** The states reachable from `Init(all)`: at most one frame is in flight,
      the sender has read an acknowledgement for every frame but the one it
      waits on, every byte coming back is 'T', and the receiver has taken
      exactly the decodable frames among those it has read. */
  ghost predicate Inv(l: Link, all: seq<seq<byte>>, decode: seq<byte> -> Mat)
  {
    l.written + l.pending == all &&
    !l.senderStopped &&
    (forall i :: 0 <= i < |l.backward| ==> l.backward[i] == ACK) &&
    |l.forward| + |l.backward| <= 1 &&
    |l.written| == l.ackedCount + (if l.awaitingAck then 1 else 0) &&
    (!l.awaitingAck ==> l.forward == [] && l.backward == []) &&
    (l.forward != [] ==> l.forward == [l.written[|l.written| - 1]]) &&
    l.delivered == Decoded(l.written[..|l.written| - |l.forward|], decode) &&
    |l.delivered| == l.ackedCount + |l.backward|
  }

  lemma InitInv(all: seq<seq<byte>>, decode: seq<byte> -> Mat)
    ensures Inv(Init(all), all, decode)
  {
    assert [] + all == all;
  }

  /** Every step keeps the invariant. */
  lemma NextInv(l: Link, all: seq<seq<byte>>, step: Step, decode: seq<byte> -> Mat)
    requires Inv(l, all, decode)
    ensures Inv(Next(l, step, decode), all, decode)
  {
    if Enabled(l, step) {
      var l' := Next(l, step, decode);
      match step
      case SenderWrite =>
        var p := l.pending[0];
        assert l'.written + l'.pending == l.written + ([p] + l.pending[1..]);
        assert l.written[..|l.written| - |l.forward|] == l.written;
        assert l'.written[..|l'.written| - |l'.forward|] == l.written;
      case SenderReadAck =>
      case ReceiverHandle =>
        var p := l.forward[0];
        assert l.written[..|l.written| - |l.forward|] + [p] == l.written;
        assert l'.written[..|l'.written| - |l'.forward|] == l.written;
        DecodedSnoc(l.written[..|l.written| - |l.forward|], p, decode);
    }
  }

  /** Running any schedule of steps. */
  function Run(l: Link, steps: seq<Step>, decode: seq<byte> -> Mat): Link
    decreases |steps|
  {
    if steps == [] then l else Run(Next(l, steps[0], decode), steps[1..], decode)
  }

  /** Whatever the interleaving, every reachable state satisfies `Inv`. */
  lemma {:induction false} RunInv(l: Link, all: seq<seq<byte>>, steps: seq<Step>, decode: seq<byte> -> Mat)
    requires Inv(l, all, decode)
    ensures Inv(Run(l, steps, decode), all, decode)
    decreases |steps|
  {
    if steps != [] {
      NextInv(l, all, steps[0], decode);
      RunInv(Next(l, steps[0], decode), all, steps[1..], decode);
    }
  }

  /** Lock-step: the sender writes frame k+1 only once it has read the
      acknowledgement of frame k, with nothing left in flight. */
  lemma WriteOnlyAfterAck(l: Link, all: seq<seq<byte>>, decode: seq<byte> -> Mat)
    requires Inv(l, all, decode) && Enabled(l, SenderWrite)
    ensures l.ackedCount == |l.written|
    ensures l.forward == [] && l.backward == []
  {
  }

  /** At most one frame is ever written and not yet acknowledged. */
  lemma AtMostOneUnacked(l: Link, all: seq<seq<byte>>, decode: seq<byte> -> Mat)
    requires Inv(l, all, decode)
    ensures l.ackedCount <= |l.written| <= l.ackedCount + 1
    ensures |l.delivered| <= |l.written|
  {
  }

  /** Against this receiver the sender's "not 'T'" branch is never taken:
      reading an acknowledgement never raises the stop flag. */
  lemma AckNeverRejected(l: Link, all: seq<seq<byte>>, decode: seq<byte> -> Mat)
    requires Inv(l, all, decode) && Enabled(l, SenderReadAck)
    ensures !Next(l, SenderReadAck, decode).senderStopped
    ensures Next(l, SenderReadAck, decode).ackedCount == l.ackedCount + 1
  {
  }

  /** A frame that does not decode gets no acknowledgement, so once the
      receiver has read it no step can be taken: the sender stays blocked
      on its read and the receiver on its next one. */
  lemma UndecodableStalls(l: Link, all: seq<seq<byte>>, decode: seq<byte> -> Mat, step: Step)
    requires Inv(l, all, decode) && Enabled(l, ReceiverHandle)
    requires decode(l.forward[0]).EmptyMat?
    ensures !Enabled(Next(l, ReceiverHandle, decode), step)
  {
  }

  /** One round: write, receive, read the acknowledgement. */
  function Round(l: Link, decode: seq<byte> -> Mat): Link
  {
    Next(Next(Next(l, SenderWrite, decode), ReceiverHandle, decode), SenderReadAck, decode)
  }

  function Rounds(l: Link, n: nat, decode: seq<byte> -> Mat): Link
    decreases n
  {
    if n == 0 then l else Rounds(Round(l, decode), n - 1, decode)
  }

  /** How a round ends when the frame it writes decodes: the frame is
      delivered and acknowledged, and the link is quiet again. */
  lemma RoundOfDecodable(l: Link, all: seq<seq<byte>>, decode: seq<byte> -> Mat)
    requires Inv(l, all, decode) && !l.awaitingAck && l.pending != []
    requires !decode(l.pending[0]).EmptyMat?
    ensures var r := Round(l, decode);
      Inv(r, all, decode) && !r.awaitingAck &&
      r.pending == l.pending[1..] && r.written == l.written + [l.pending[0]] &&
      r.delivered == l.delivered + [decode(l.pending[0])] && r.ackedCount == l.ackedCount + 1
  {
    var a := Next(l, SenderWrite, decode);
    NextInv(l, all, SenderWrite, decode);
    var b := Next(a, ReceiverHandle, decode);
    NextInv(a, all, ReceiverHandle, decode);
    NextInv(b, all, SenderReadAck, decode);
  }

  /** When every frame decodes, `n` lock-step rounds write the next `n`
      frames and leave the link quiet; by `Inv` the receiver has then
      delivered exactly the decoded frames written so far. */
  lemma {:induction false} RoundsDeliver(l: Link, all: seq<seq<byte>>, n: nat, decode: seq<byte> -> Mat)
    requires Inv(l, all, decode) && !l.awaitingAck && n <= |l.pending|
    requires forall i :: 0 <= i < |l.pending| ==> !decode(l.pending[i]).EmptyMat?
    ensures var r := Rounds(l, n, decode);
      Inv(r, all, decode) && !r.awaitingAck &&
      r.written == l.written + l.pending[..n] && r.pending == l.pending[n..]
    decreases n
  {
    if n > 0 {
      RoundOfDecodable(l, all, decode);
      var r1 := Round(l, decode);
      assert forall i :: 0 <= i < |r1.pending| ==> r1.pending[i] == l.pending[i + 1];
      RoundsDeliver(r1, all, n - 1, decode);
      calc {
        r1.written + r1.pending[..n - 1];
        (l.written + [l.pending[0]]) + l.pending[1..][..n - 1];
        { AppendAssoc(l.written, [l.pending[0]], l.pending[1..][..n - 1]); }
        l.written + ([l.pending[0]] + l.pending[1..][..n - 1]);
        { assert [l.pending[0]] + l.pending[1..][..n - 1] == l.pending[..n]; }
        l.written + l.pending[..n];
      }
      assert r1.pending[n - 1..] == l.pending[n..];
    }
  }

  /** End to end: from a fresh connection, when every frame decodes, one
      round per frame delivers all of them, in order, and leaves nothing in
      flight. */
  lemma AllDelivered(all: seq<seq<byte>>, decode: seq<byte> -> Mat)
    requires forall i :: 0 <= i < |all| ==> !decode(all[i]).EmptyMat?
    ensures var r := Rounds(Init(all), |all|, decode);
      r.written == all && r.pending == [] && !r.awaitingAck && r.forward == [] && r.backward == [] &&
      r.ackedCount == |all| && |r.delivered| == |all| &&
      (forall i :: 0 <= i < |all| ==> r.delivered[i] == decode(all[i]))
  {
    InitInv(all, decode);
    RoundsDeliver(Init(all), all, |all|, decode);
    var r := Rounds(Init(all), |all|, decode);
    assert [] + all[..|all|] == all;
    assert r.written[..|r.written| - |r.forward|] == all;
    DecodedAll(all, decode);
  }
}
