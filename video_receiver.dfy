/** `VideoReceiver`: the TCP server of the length-prefixed protocol. A
    client session (`handleClient`) reads a 4-byte length and then exactly
    that many bytes, decodes them, writes 'T' back for every frame that
    decodes, and enqueues it unless the queue is full; a display stage
    (`displayFrames`) pops frames from the front and shows them until ESC.

    The session and display loops become step methods as for the senders.
    What the client sends on its connection is the byte sequence given to
    `AcceptClient`; the JPEG decoder is an oracle. */
module VideoReceiverModel {
  import opened Bytes
  import opened Wire
  import opened Media
  import opened FrameQueues

  /** What a client session does with a stream: the payloads it reads, and
      the decoded frames it acknowledges (each of them then offered to the
      queue). */
  datatype Session = Session(frames: seq<seq<byte>>, acked: seq<Mat>)

  /** One turn of the session loop, `ps` being the complete frames still on
      the stream and `k` the number of acknowledgements written so far: the
      payload it reads (none when the stream holds no complete frame), the
      frame it acknowledges, and whether the session goes on. A frame that
      does not decode is skipped without an acknowledgement; a short stream,
      or a failed acknowledgement write (`ackOk(k)` false), ends the
      session. */
  datatype Turn = Turn(read: seq<seq<byte>>, acked: seq<Mat>, open: bool)

  function ServeTurn(ps: seq<seq<byte>>, decode: seq<byte> -> Mat, ackOk: nat -> bool, k: nat): (t: Turn)
    ensures t.read == [] <==> ps == []
    ensures t.read != [] ==> t.read == [ps[0]]
    ensures t.acked == (if ps != [] && !decode(ps[0]).EmptyMat? && ackOk(k) then [decode(ps[0])] else [])
    ensures ps != [] ==> (t.open <==> decode(ps[0]).EmptyMat? || ackOk(k))
    ensures ps == [] ==> !t.open
  {
    if ps == [] then Turn([], [], false)
    else
      var m := decode(ps[0]);
      if m.EmptyMat? then Turn([ps[0]], [], true)
      else if !ackOk(k) then Turn([ps[0]], [], false)
      else Turn([ps[0]], [m], true)
  }

  /** The session loop run to its end over the frames `ps`: the turns one
      after another. */
  function ServeFrames(ps: seq<seq<byte>>, decode: seq<byte> -> Mat, ackOk: nat -> bool, k: nat): (r: Session)
    decreases |ps|
  {
    var t := ServeTurn(ps, decode, ackOk, k);
    if !t.open then Session(t.read, t.acked)
    else
      var r := ServeFrames(ps[1..], decode, ackOk, k + |t.acked|);
      Session(t.read + r.frames, t.acked + r.acked)
  }

  /** A session on the byte stream `s`: the receiver reads the frames of
      `s` one after another, and never past the first incomplete one. */
  function Serve(s: seq<byte>, decode: seq<byte> -> Mat, ackOk: nat -> bool, k: nat): (r: Session)
    ensures r.frames <= Deframe(s) && 4 * |r.frames| <= |s|
  {
    ServeReadsPrefix(Deframe(s), decode, ackOk, k);
    ServeFrames(Deframe(s), decode, ackOk, k)
  }

  /** The frames that decode to a non-empty image, in order. */
  function Decoded(ps: seq<seq<byte>>, decode: seq<byte> -> Mat): seq<Mat>
  {
    if ps == [] then []
    else if decode(ps[0]).EmptyMat? then Decoded(ps[1..], decode)
    else [decode(ps[0])] + Decoded(ps[1..], decode)
  }

  lemma DecodedCons(p: seq<byte>, ps: seq<seq<byte>>, decode: seq<byte> -> Mat)
    ensures Decoded([p] + ps, decode) ==
      (if decode(p).EmptyMat? then [] else [decode(p)]) + Decoded(ps, decode)
  {
    assert ([p] + ps)[1..] == ps;
  }

  /** Decoding one more frame at the end. */
  lemma {:induction false} DecodedSnoc(ps: seq<seq<byte>>, p: seq<byte>, decode: seq<byte> -> Mat)
    ensures Decoded(ps + [p], decode) ==
      Decoded(ps, decode) + (if decode(p).EmptyMat? then [] else [decode(p)])
  {
    if ps == [] {
      assert [] + [p] == [p];
      DecodedCons(p, [], decode);
    } else {
      assert (ps + [p])[1..] == ps[1..] + [p];
      DecodedSnoc(ps[1..], p, decode);
      DecodedCons(ps[0], ps[1..] + [p], decode);
      DecodedCons(ps[0], ps[1..], decode);
      assert ps + [p] == [ps[0]] + (ps[1..] + [p]);
      assert ps == [ps[0]] + ps[1..];
    }
  }

  /** `n` acknowledgement bytes. */
  function Acks(n: nat): (r: seq<byte>)
    ensures |r| == n && forall i :: 0 <= i < n ==> r[i] == ACK
  {
    seq(n, _ => ACK)
  }

  /** Acknowledgements written in two stretches. */
  lemma AcksAppend(m: nat, n: nat)
    ensures Acks(m) + Acks(n) == Acks(m + n)
  {
    assert forall i :: 0 <= i < m + n ==> (Acks(m) + Acks(n))[i] == ACK;
  }

  lemma AppendAssoc<T>(a: seq<T>, b: seq<T>, c: seq<T>)
    ensures a + (b + c) == (a + b) + c
  {
  }

  /** Where a session loop started: what had been read, acknowledged and
      queued, and what the whole session is to do. */
  datatype Start = Start(framesRead: seq<seq<byte>>, ackStream: seq<byte>, queued: seq<Mat>, total: Session)

  /** What a session still has to do: nothing once it has ended. */
  function Remaining(ps: seq<seq<byte>>, decode: seq<byte> -> Mat, ackOk: nat -> bool, k: nat, open: bool): Session
  {
    if open then ServeFrames(ps, decode, ackOk, k) else Session([], [])
  }

  /** What is left of a session after one more turn. */
  lemma SessionAdvance(total: Session, readSoFar: seq<seq<byte>>, ackedSoFar: seq<Mat>,
                       ps: seq<seq<byte>>, decode: seq<byte> -> Mat, ackOk: nat -> bool, k: nat)
    requires total.frames == readSoFar + ServeFrames(ps, decode, ackOk, k).frames
    requires total.acked == ackedSoFar + ServeFrames(ps, decode, ackOk, k).acked
    ensures var t := ServeTurn(ps, decode, ackOk, k);
      var r := Remaining(ps[|t.read|..], decode, ackOk, k + |t.acked|, t.open);
      total.frames == (readSoFar + t.read) + r.frames &&
      total.acked == (ackedSoFar + t.acked) + r.acked
  {
    var t := ServeTurn(ps, decode, ackOk, k);
    var r := Remaining(ps[|t.read|..], decode, ackOk, k + |t.acked|, t.open);
    if !t.open {
      assert t.read + [] == t.read && t.acked + [] == t.acked;
    }
    AppendAssoc(readSoFar, t.read, r.frames);
    AppendAssoc(ackedSoFar, t.acked, r.acked);
  }

  /** A session whose first turn keeps it open is that turn followed by
      the session on the remaining frames. */
  lemma ServeFramesOpen(ps: seq<seq<byte>>, decode: seq<byte> -> Mat, ackOk: nat -> bool, k: nat)
    requires ps != [] && ServeTurn(ps, decode, ackOk, k).open
    ensures var t := ServeTurn(ps, decode, ackOk, k);
      var r1 := ServeFrames(ps[1..], decode, ackOk, k + |t.acked|);
      ServeFrames(ps, decode, ackOk, k) == Session([ps[0]] + r1.frames, t.acked + r1.acked)
  {
  }

  /** Whatever happens, a session reads a prefix of the frames on its
      stream, in order. */
  lemma {:induction false} ServeReadsPrefix(ps: seq<seq<byte>>, decode: seq<byte> -> Mat, ackOk: nat -> bool, k: nat)
    ensures ServeFrames(ps, decode, ackOk, k).frames <= ps
    decreases |ps|
  {
    var t := ServeTurn(ps, decode, ackOk, k);
    if t.open {
      ServeReadsPrefix(ps[1..], decode, ackOk, k + |t.acked|);
      assert ps == [ps[0]] + ps[1..];
    }
  }

  /** A session acknowledges the frames it reads that decode, in order,
      except that the last frame it reads goes unacknowledged when the write
      of its acknowledgement fails. */
  lemma {:induction false} ServeAcksDecoded(ps: seq<seq<byte>>, decode: seq<byte> -> Mat, ackOk: nat -> bool, k: nat)
    ensures var r := ServeFrames(ps, decode, ackOk, k);
      r.acked == Decoded(r.frames, decode) ||
      (r.frames != [] && r.acked + [decode(r.frames[|r.frames| - 1])] == Decoded(r.frames, decode))
    decreases |ps|
  {
    var t := ServeTurn(ps, decode, ackOk, k);
    var r := ServeFrames(ps, decode, ackOk, k);
    if ps == [] {
    } else if !t.open {
      assert r.frames == [ps[0]] && r.acked == [];
      DecodedCons(ps[0], [], decode);
    } else {
      var r1 := ServeFrames(ps[1..], decode, ackOk, k + |t.acked|);
      ServeAcksDecoded(ps[1..], decode, ackOk, k + |t.acked|);
      DecodedCons(ps[0], r1.frames, decode);
      ServeFramesOpen(ps, decode, ackOk, k);
      assert Decoded(r.frames, decode) == t.acked + Decoded(r1.frames, decode);
      AcksBehindDecodedCons(ps[0], t.acked, r1.frames, r1.acked, decode);
    }
  }

  /** The relation `ServeAcksDecoded` states survives putting one more turn
      in front. */
  lemma AcksBehindDecodedCons(p: seq<byte>, a0: seq<Mat>, f1: seq<seq<byte>>, a1: seq<Mat>,
                              decode: seq<byte> -> Mat)
    requires Decoded([p] + f1, decode) == a0 + Decoded(f1, decode)
    requires a1 == Decoded(f1, decode) || (f1 != [] && a1 + [decode(f1[|f1| - 1])] == Decoded(f1, decode))
    ensures var f := [p] + f1;
      a0 + a1 == Decoded(f, decode) || (f != [] && (a0 + a1) + [decode(f[|f| - 1])] == Decoded(f, decode))
  {
    if a1 != Decoded(f1, decode) {
      var f := [p] + f1;
      assert f[|f| - 1] == f1[|f1| - 1];
      AppendAssoc(a0, a1, [decode(f1[|f1| - 1])]);
    }
  }

  /** When every acknowledgement can be written, a session reads every
      complete frame of its stream and acknowledges exactly those that
      decode: one 'T' per decoded frame, none for a frame that does not. */
  lemma {:induction false} ServeWithAcksDelivered(ps: seq<seq<byte>>, decode: seq<byte> -> Mat, ackOk: nat -> bool, k: nat)
    requires forall j :: ackOk(j)
    ensures ServeFrames(ps, decode, ackOk, k).frames == ps
    ensures ServeFrames(ps, decode, ackOk, k).acked == Decoded(ps, decode)
    decreases |ps|
  {
    if ps != [] {
      var t := ServeTurn(ps, decode, ackOk, k);
      ServeWithAcksDelivered(ps[1..], decode, ackOk, k + |t.acked|);
      DecodedCons(ps[0], ps[1..], decode);
      assert ps == [ps[0]] + ps[1..];
    }
  }

  /** End to end: a session on the stream a sender wrote for `ps` reads
      `ps` back in order and acknowledges the frames of `ps` that decode. */
  lemma ServeSenderStream(ps: seq<seq<byte>>, decode: seq<byte> -> Mat, ackOk: nat -> bool)
    requires Fits(ps)
    requires forall j :: ackOk(j)
    ensures Serve(FrameAll(ps), decode, ackOk, 0).frames == ps
    ensures Serve(FrameAll(ps), decode, ackOk, 0).acked == Decoded(ps, decode)
  {
    DeframeFrameAll(ps);
    ServeWithAcksDelivered(ps, decode, ackOk, 0);
  }

  /** When every frame decodes, one frame is acknowledged per frame read,
      the i-th being the decoding of the i-th. */
  lemma {:induction false} DecodedAll(ps: seq<seq<byte>>, decode: seq<byte> -> Mat)
    requires forall i :: 0 <= i < |ps| ==> !decode(ps[i]).EmptyMat?
    ensures |Decoded(ps, decode)| == |ps|
    ensures forall i :: 0 <= i < |ps| ==> Decoded(ps, decode)[i] == decode(ps[i])
  {
    if ps != [] {
      DecodedAll(ps[1..], decode);
    }
  }

  class VideoReceiver {
    const port: nat
    const targetFPS: nat
    const videoWidth: nat
    const videoHeight: nat
    const frameQueue: FrameQueue<Mat>

    var stopDisplay: bool
    var displayStage: Stage
    /** The frames handed to `imshow`, in order. */
    var shown: seq<Mat>

    // The client session being handled.
    var sessionOpen: bool
    /** What the client has sent that the session has not read yet. */
    var inbound: seq<byte>
    /** The bytes the session has written back on the socket. */
    var ackStream: seq<byte>
    ghost var framesRead: seq<seq<byte>>

    ghost predicate Valid()
      reads this, frameQueue
    {
      frameQueue.Valid() &&
      (forall i :: 0 <= i < |frameQueue.admitted| ==> !frameQueue.admitted[i].EmptyMat?) &&
      shown == frameQueue.taken &&
      (forall i :: 0 <= i < |ackStream| ==> ackStream[i] == ACK)
    }

    /** Binds the port (not modelled); the queue holds at most
        `maxQueueSize` frames. */
    constructor (port: nat, targetFPS: nat, videoWidth: nat, videoHeight: nat, maxQueueSize: nat)
      ensures Valid() && fresh(frameQueue)
      ensures this.port == port && this.targetFPS == targetFPS
      ensures this.videoWidth == videoWidth && this.videoHeight == videoHeight
      ensures frameQueue.capacity == maxQueueSize && frameQueue.items == []
      ensures !stopDisplay && displayStage == NotStarted && shown == [] && !sessionOpen
    {
      this.port, this.targetFPS, this.videoWidth, this.videoHeight := port, targetFPS, videoWidth, videoHeight;
      frameQueue := new FrameQueue<Mat>(maxQueueSize);
      stopDisplay, displayStage, shown := false, NotStarted, [];
      sessionOpen, inbound, ackStream, framesRead := false, [], [], [];
    }

    /** `start()` launches the display thread first. */
    method StartDisplay()
      requires Valid() && displayStage == NotStarted
      modifies this
      ensures Valid() && displayStage == Running
      ensures stopDisplay == old(stopDisplay) && shown == old(shown) && sessionOpen == old(sessionOpen)
      ensures inbound == old(inbound) && ackStream == old(ackStream)
    {
      displayStage := Running;
    }

    /** One turn of the accept loop: unless the display has stopped, accept
        the next client, whose connection carries `stream`. */
    method AcceptClient(stream: seq<byte>) returns (accepted: bool)
      requires Valid() && !sessionOpen
      modifies this
      ensures Valid()
      ensures accepted <==> !old(stopDisplay)
      ensures accepted ==> sessionOpen && inbound == stream && ackStream == [] && framesRead == []
      ensures !accepted ==> !sessionOpen
      ensures stopDisplay == old(stopDisplay) && displayStage == old(displayStage) && shown == old(shown)
    {
      accepted := !stopDisplay;
      if accepted {
        sessionOpen, inbound, ackStream, framesRead := true, stream, [], [];
      }
    }

    /** One turn of the session loop. With `stopDisplay` up the loop ends.
        Otherwise read 4 bytes and then as many as they announce (no upper
        bound is enforced; a short stream throws and ends the session) and
        decode them: an empty result skips the frame with no reply; else
        'T' is written (the k-th write of the session succeeding exactly when
        `ackOk(k)`, a failed one ending the session) BEFORE the frame is
        offered to the queue, so a frame the full queue drops has still been
        acknowledged. */
    method HandleStep(decode: seq<byte> -> Mat, ackOk: nat -> bool)
      requires Valid() && sessionOpen
      modifies this, frameQueue
      ensures Valid()
      ensures old(stopDisplay) ==>
        !sessionOpen && framesRead == old(framesRead) && inbound == old(inbound) &&
        ackStream == old(ackStream) && frameQueue.items == old(frameQueue.items)
      ensures !old(stopDisplay) ==>
        var ps := Deframe(old(inbound));
        var t := ServeTurn(ps, decode, ackOk, |old(ackStream)|);
        framesRead == old(framesRead) + t.read && Deframe(inbound) == ps[|t.read|..] &&
        sessionOpen == t.open &&
        ackStream == old(ackStream) + Acks(|t.acked|) &&
        frameQueue.items == OfferAll(old(frameQueue.items), t.acked, frameQueue.capacity)
      ensures |inbound| <= old(|inbound|) && (sessionOpen ==> |inbound| < old(|inbound|))
      ensures stopDisplay == old(stopDisplay) && displayStage == old(displayStage) && shown == old(shown)
    {
      if stopDisplay {
        sessionOpen := false;
        return;
      }
      match NextFrame(inbound) {
        case None =>
          DeframeNext(inbound);
          sessionOpen := false;
        case Some((buffer, rest)) =>
          DeframeNext(inbound);
          assert ([buffer] + Deframe(rest))[1..] == Deframe(rest);
          inbound := rest;
          framesRead := framesRead + [buffer];
          var frame := decode(buffer);
          if frame.EmptyMat? {
            return;
          }
          if !ackOk(|ackStream|) {
            sessionOpen := false;
            return;
          }
          ackStream := ackStream + [ACK];
          var _ := frameQueue.TryPush(frame);
          assert Acks(1) == [ACK];
          assert OfferAll(old(frameQueue.items), [frame], frameQueue.capacity)
              == Admit(old(frameQueue.items), frame, frameQueue.capacity);
      }
    }

    /** `handleClient` run to its end with the display stage not
        interfering: it does what `Serve` says, the acknowledged frames being
        offered to the queue one after another. */
    method HandleClient(decode: seq<byte> -> Mat, ackOk: nat -> bool)
      requires Valid() && sessionOpen
      modifies this, frameQueue
      ensures Valid() && !sessionOpen
      ensures var r := if old(stopDisplay) then Session([], [])
                       else Serve(old(inbound), decode, ackOk, |old(ackStream)|);
        framesRead == old(framesRead) + r.frames &&
        ackStream == old(ackStream) + Acks(|r.acked|) &&
        frameQueue.items == OfferAll(old(frameQueue.items), r.acked, frameQueue.capacity)
      ensures stopDisplay == old(stopDisplay) && displayStage == old(displayStage) && shown == old(shown)
    {
      if stopDisplay {
        HandleStep(decode, ackOk);
      } else {
        RunSession(decode, ackOk);
      }
    }

    /** The session loop of `handleClient` while the display runs. */
    method RunSession(decode: seq<byte> -> Mat, ackOk: nat -> bool)
      requires Valid() && sessionOpen && !stopDisplay
      modifies this, frameQueue
      ensures Valid() && !sessionOpen
      ensures var r := Serve(old(inbound), decode, ackOk, |old(ackStream)|);
        framesRead == old(framesRead) + r.frames &&
        ackStream == old(ackStream) + Acks(|r.acked|) &&
        frameQueue.items == OfferAll(old(frameQueue.items), r.acked, frameQueue.capacity)
      ensures stopDisplay == old(stopDisplay) && displayStage == old(displayStage) && shown == old(shown)
    {
      ghost var start := Start(framesRead, ackStream, frameQueue.items,
                               Serve(inbound, decode, ackOk, |ackStream|));
      ghost var readSoFar: seq<seq<byte>> := [];
      ghost var ackedSoFar: seq<Mat> := [];
      assert [] + start.total.frames == start.total.frames && [] + start.total.acked == start.total.acked;
      while sessionOpen
        invariant Valid() && !stopDisplay
        invariant displayStage == old(displayStage) && shown == old(shown)
        invariant Tracks(start, readSoFar, ackedSoFar, decode, ackOk)
        decreases |inbound|, sessionOpen
      {
        readSoFar, ackedSoFar := SessionTurn(decode, ackOk, start, readSoFar, ackedSoFar);
      }
      assert readSoFar + [] == readSoFar && ackedSoFar + [] == ackedSoFar;
    }

    /** The session so far accounts for what has been read, acknowledged
        and queued since `start`, and what is left is the rest of `Serve`. */
    ghost predicate Tracks(start: Start, readSoFar: seq<seq<byte>>, ackedSoFar: seq<Mat>,
                           decode: seq<byte> -> Mat, ackOk: nat -> bool)
      reads this, frameQueue
    {
      var rem := Remaining(Deframe(inbound), decode, ackOk, |ackStream|, sessionOpen);
      framesRead == start.framesRead + readSoFar &&
      ackStream == start.ackStream + Acks(|ackedSoFar|) &&
      frameQueue.items == OfferAll(start.queued, ackedSoFar, frameQueue.capacity) &&
      start.total.frames == readSoFar + rem.frames &&
      start.total.acked == ackedSoFar + rem.acked
    }

    /** One iteration of the session loop, with the bookkeeping that keeps
        `Tracks`. */
    method SessionTurn(decode: seq<byte> -> Mat, ackOk: nat -> bool, ghost start: Start,
                       ghost readSoFar: seq<seq<byte>>, ghost ackedSoFar: seq<Mat>)
      returns (ghost readAfter: seq<seq<byte>>, ghost ackedAfter: seq<Mat>)
      requires Valid() && sessionOpen && !stopDisplay
      requires Tracks(start, readSoFar, ackedSoFar, decode, ackOk)
      modifies this, frameQueue
      ensures Valid() && !stopDisplay
      ensures displayStage == old(displayStage) && shown == old(shown)
      ensures Tracks(start, readAfter, ackedAfter, decode, ackOk)
      ensures |inbound| <= old(|inbound|) && (sessionOpen ==> |inbound| < old(|inbound|))
    {
      ghost var k := |ackStream|;
      ghost var ps := Deframe(inbound);
      ghost var t := ServeTurn(ps, decode, ackOk, k);
      SessionAdvance(start.total, readSoFar, ackedSoFar, ps, decode, ackOk, k);
      HandleStep(decode, ackOk);
      AcksAppend(|ackedSoFar|, |t.acked|);
      AppendAssoc(start.framesRead, readSoFar, t.read);
      AppendAssoc(start.ackStream, Acks(|ackedSoFar|), Acks(|t.acked|));
      OfferAllAppend(start.queued, ackedSoFar, t.acked, frameQueue.capacity);
      readAfter, ackedAfter := readSoFar + t.read, ackedSoFar + t.acked;
    }

    /** One turn of the display loop: with `stopDisplay` up it leaves at
        once, leaving the queue undrained; on an empty queue it stays
        blocked; otherwise it shows the front frame, which ESC then makes
        the last one (raising `stopDisplay`). */
    method DisplayStep(escPressed: bool)
      requires Valid() && displayStage == Running
      modifies this, frameQueue
      ensures Valid()
      ensures old(stopDisplay) ==>
        displayStage == Exited && stopDisplay &&
        frameQueue.items == old(frameQueue.items) && shown == old(shown)
      ensures !old(stopDisplay) && old(frameQueue.items) == [] ==>
        displayStage == Running && !stopDisplay && frameQueue.items == [] && shown == old(shown)
      ensures !old(stopDisplay) && old(frameQueue.items) != [] ==>
        shown == old(shown) + [old(frameQueue.items)[0]] && frameQueue.items == old(frameQueue.items)[1..] &&
        (stopDisplay <==> escPressed) && (displayStage == Exited <==> escPressed) &&
        (!escPressed ==> displayStage == Running)
      ensures sessionOpen == old(sessionOpen) && inbound == old(inbound) && ackStream == old(ackStream)
      ensures frameQueue.admitted == old(frameQueue.admitted)
    {
      if stopDisplay {
        displayStage := Exited;
        return;
      }
      if frameQueue.items == [] {
        return;
      }
      var frame := frameQueue.Pop();
      shown := shown + [frame];
      if escPressed {
        stopDisplay := true;
        displayStage := Exited;
      }
    }
  }
}
