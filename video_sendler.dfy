/** `VideoSendler`: the TCP client of the length-prefixed protocol. A
    capture stage overwrites a single shared frame slot; a send stage reads
    the slot (without clearing it), JPEG-encodes it, writes the 4-byte
    length and the bytes, then reads one acknowledgement byte and stops on
    anything but 'T'.

    As with `VideoSender`, the threads become step methods whose
    interleavings are the runs of the program. The socket is a sequence of
    bytes written (`wire`); what each read or write meets on the network is
    a parameter of the step. */
module VideoSendlerModel {
  import opened Bytes
  import opened Wire
  import opened Media

  datatype VideoSourceType = VideoFile | Camera

  predicate AllAck(acks: seq<byte>)
  {
    forall i :: 0 <= i < |acks| ==> acks[i] == ACK
  }

  /** The lock-step relation between buffers written and acknowledgements
      read: every buffer but possibly the last has been acknowledged, only
      the last ack read can be a wrong one, and any shortfall or wrong ack
      has raised the flag. */
  predicate LockStep(sent: seq<seq<byte>>, acks: seq<byte>, stopFlag: bool)
  {
    (|sent| == |acks| || (|sent| == |acks| + 1 && AllAck(acks) && stopFlag)) &&
    (forall i :: 0 <= i < |acks| ==> acks[i] == ACK || (i == |acks| - 1 && stopFlag))
  }

  /** With the flag down, every buffer written has been acknowledged with
      'T': frame k+1 can only go out after the ack for frame k. */
  lemma LockStepWithFlagDown(sent: seq<seq<byte>>, acks: seq<byte>)
    requires LockStep(sent, acks, false)
    ensures |acks| == |sent| && AllAck(acks)
  {
  }

  /** Writing one more buffer with the flag down, then reading an ack (or
      failing to, which raises the flag) keeps the lock-step relation. */
  lemma LockStepAfterWrite(sent: seq<seq<byte>>, acks: seq<byte>, b: seq<byte>, ackRead: Option<byte>)
    requires LockStep(sent, acks, false)
    ensures ackRead.None? ==> LockStep(sent + [b], acks, true)
    ensures ackRead.Some? ==> LockStep(sent + [b], acks + [ackRead.value], ackRead.value != ACK)
  {
    LockStepWithFlagDown(sent, acks);
    if ackRead.Some? {
      var a := acks + [ackRead.value];
      forall i | 0 <= i < |a|
        ensures a[i] == ACK || (i == |a| - 1 && ackRead.value != ACK)
      {
        if i < |acks| {
          assert a[i] == acks[i];
        }
      }
    }
  }

  class VideoSendler {
    const ip: string
    const port: nat
    const videoSrc: string
    const cameraIndex: nat
    const sourceType: VideoSourceType
    /** `cv::imencode(".jpg", frame, buffer)`; its success flag is ignored by
        the source, so whatever buffer it leaves is what gets sent. */
    const encode: Mat -> seq<byte>

    var stopFlag: bool
    var sharedFrame: Mat
    var captureStage: Stage
    var sendStage: Stage
    /** Every byte written to the socket, in order. */
    var wire: seq<byte>
    /** The encoded buffers framed onto the socket, in order. */
    var sent: seq<seq<byte>>
    /** The acknowledgement bytes read back, in order. */
    var acks: seq<byte>

    ghost predicate Valid()
      reads this
    {
      wire == FrameAll(sent) &&
      LockStep(sent, acks, stopFlag) &&
      (sendStage.NotStarted? ==> sent == [] && acks == [])
    }

    /** The file-source constructor. */
    constructor FromFile(ip: string, port: nat, videoSrc: string, encode: Mat -> seq<byte>)
      ensures Valid()
      ensures this.ip == ip && this.port == port && this.videoSrc == videoSrc
      ensures sourceType == VideoFile && this.encode == encode
      ensures !stopFlag && sharedFrame == EmptyMat
      ensures captureStage == NotStarted && sendStage == NotStarted
      ensures wire == [] && sent == [] && acks == []
    {
      this.ip, this.port, this.videoSrc, this.cameraIndex := ip, port, videoSrc, 0;
      sourceType, this.encode := VideoFile, encode;
      stopFlag, sharedFrame := false, EmptyMat;
      captureStage, sendStage := NotStarted, NotStarted;
      wire, sent, acks := [], [], [];
    }

    /** The camera-source constructor. */
    constructor FromCamera(ip: string, port: nat, cameraIndex: nat, encode: Mat -> seq<byte>)
      ensures Valid()
      ensures this.ip == ip && this.port == port && this.cameraIndex == cameraIndex
      ensures sourceType == Camera && this.encode == encode
      ensures !stopFlag && sharedFrame == EmptyMat
      ensures captureStage == NotStarted && sendStage == NotStarted
      ensures wire == [] && sent == [] && acks == []
    {
      this.ip, this.port, this.videoSrc, this.cameraIndex := ip, port, "", cameraIndex;
      sourceType, this.encode := Camera, encode;
      stopFlag, sharedFrame := false, EmptyMat;
      captureStage, sendStage := NotStarted, NotStarted;
      wire, sent, acks := [], [], [];
    }

    /** The top of `captureVideo`: opening the file or camera; a failure
        raises the flag and returns. */
    method OpenSource(isOpened: bool)
      requires Valid() && captureStage == NotStarted
      modifies this
      ensures Valid()
      ensures isOpened ==> captureStage == Running && stopFlag == old(stopFlag)
      ensures !isOpened ==> captureStage == Exited && stopFlag
      ensures sharedFrame == old(sharedFrame) && sendStage == old(sendStage)
      ensures wire == old(wire) && sent == old(sent) && acks == old(acks)
    {
      if isOpened {
        captureStage := Running;
      } else {
        stopFlag := true;
        captureStage := Exited;
      }
    }

    /** One turn of the capture loop: leave when the flag is up; a failed
        read raises the flag and leaves; otherwise the slot is overwritten
        with the new frame, and ESC in the preview window raises the flag
        and leaves. */
    method CaptureStep(read: Option<Mat>, escPressed: bool)
      requires Valid() && captureStage == Running
      modifies this
      ensures Valid()
      ensures old(stopFlag) ==> captureStage == Exited && sharedFrame == old(sharedFrame) && stopFlag
      ensures !old(stopFlag) && read.None? ==> captureStage == Exited && stopFlag && sharedFrame == old(sharedFrame)
      ensures !old(stopFlag) && read.Some? ==>
        sharedFrame == read.value &&
        (escPressed ==> captureStage == Exited && stopFlag) &&
        (!escPressed ==> captureStage == Running && !stopFlag)
      ensures sendStage == old(sendStage) && wire == old(wire) && sent == old(sent) && acks == old(acks)
    {
      if stopFlag {
        captureStage := Exited;
        return;
      }
      if read.None? {
        stopFlag := true;
        captureStage := Exited;
        return;
      }
      sharedFrame := read.value;
      if escPressed {
        stopFlag := true;
        captureStage := Exited;
      }
    }

    /** The top of `sendVideo`: connecting to the server. A failed connect
        raises the flag and returns without sending anything. */
    method Connect(connected: bool)
      requires Valid() && sendStage == NotStarted
      modifies this
      ensures Valid()
      ensures connected ==> sendStage == Running && stopFlag == old(stopFlag)
      ensures !connected ==> sendStage == Exited && stopFlag
      ensures sharedFrame == old(sharedFrame) && captureStage == old(captureStage)
      ensures wire == [] && sent == [] && acks == []
    {
      if connected {
        sendStage := Running;
      } else {
        stopFlag := true;
        sendStage := Exited;
      }
    }

    /** One turn of the send loop.
        - Flag up: leave the loop and close the socket.
        - Empty slot: nothing is sent (the loop spins).
        - Otherwise encode the slot's frame, which stays in the slot; a
          write error raises the flag and leaves; else the length and the
          buffer are written; then one byte is read: a read error raises the
          flag and leaves, a byte other than 'T' raises the flag. */
    method SendStep(writeOk: bool, ackRead: Option<byte>)
      requires Valid() && sendStage == Running
      modifies this
      ensures Valid()
      ensures sharedFrame == old(sharedFrame) && captureStage == old(captureStage)
      ensures old(stopFlag) ==> sendStage == Exited && sent == old(sent) && acks == old(acks) && stopFlag
      ensures !old(stopFlag) && old(sharedFrame).EmptyMat? ==>
        sendStage == Running && !stopFlag && sent == old(sent) && acks == old(acks)
      ensures !old(stopFlag) && !old(sharedFrame).EmptyMat? && !writeOk ==>
        sendStage == Exited && stopFlag && sent == old(sent) && acks == old(acks)
      ensures !old(stopFlag) && !old(sharedFrame).EmptyMat? && writeOk ==>
        sent == old(sent) + [encode(old(sharedFrame))] &&
        wire == old(wire) + LE32(ToUint32(|encode(old(sharedFrame))|)) + encode(old(sharedFrame)) &&
        (ackRead.None? ==> sendStage == Exited && stopFlag && acks == old(acks)) &&
        (ackRead.Some? ==> sendStage == Running && acks == old(acks) + [ackRead.value] &&
                           (stopFlag <==> ackRead.value != ACK))
      ensures |sent| > |old(sent)| ==> !old(stopFlag) && |old(acks)| == |old(sent)| && AllAck(old(acks))
    {
      if stopFlag {
        sendStage := Exited;
        return;
      }
      if sharedFrame.EmptyMat? {
        return;
      }
      var buffer := encode(sharedFrame);
      if !writeOk {
        stopFlag := true;
        sendStage := Exited;
        return;
      }
      WriteAndReadAck(buffer, ackRead);
    }

    /** The `try` block of the send loop: write the length (cut to
        `uint32_t`) and the buffer, then read one byte back. */
    method WriteAndReadAck(buffer: seq<byte>, ackRead: Option<byte>)
      requires Valid() && sendStage == Running && !stopFlag
      modifies this
      ensures Valid()
      ensures sharedFrame == old(sharedFrame) && captureStage == old(captureStage)
      ensures sent == old(sent) + [buffer] && wire == old(wire) + LE32(ToUint32(|buffer|)) + buffer
      ensures ackRead.None? ==> sendStage == Exited && stopFlag && acks == old(acks)
      ensures ackRead.Some? ==> sendStage == Running && acks == old(acks) + [ackRead.value]
      ensures ackRead.Some? ==> (stopFlag <==> ackRead.value != ACK)
      ensures |old(acks)| == |old(sent)| && AllAck(old(acks))
    {
      LockStepWithFlagDown(sent, acks);
      var bufferSize := ToUint32(|buffer|);
      FrameAllSnoc(sent, buffer);
      wire := wire + LE32(bufferSize) + buffer;
      LockStepAfterWrite(sent, acks, buffer, ackRead);
      sent := sent + [buffer];
      match ackRead {
        case None =>
          stopFlag := true;
          sendStage := Exited;
        case Some(ack) =>
          acks := acks + [ack];
          if ack != ACK {
            stopFlag := true;
          }
      }
    }
  }

  /** The slot is overwritable and never cleared: with frames f1, f2, f3
      captured around three sends, f1 goes out twice and f2 never. */
  method SlotKeepsLatest(encode: Mat -> seq<byte>, f1: Mat, f2: Mat, f3: Mat)
    returns (sentBuffers: seq<seq<byte>>)
    requires !f1.EmptyMat? && !f3.EmptyMat?
    ensures sentBuffers == [encode(f1), encode(f1), encode(f3)]
  {
    var s := new VideoSendler.FromCamera("127.0.0.1", 8080, 0, encode);
    s.OpenSource(true);
    s.Connect(true);
    s.CaptureStep(Some(f1), false);
    s.SendStep(true, Some(ACK));
    s.SendStep(true, Some(ACK));
    s.CaptureStep(Some(f2), false);
    s.CaptureStep(Some(f3), false);
    s.SendStep(true, Some(ACK));
    sentBuffers := s.sent;
  }

  /** A wrong acknowledgement ends the session: after it, no further
      buffer is written, whatever the slot holds. */
  method WrongAckStopsSending(encode: Mat -> seq<byte>, f: Mat, badAck: byte)
    returns (sentBuffers: seq<seq<byte>>, stopped: bool)
    requires !f.EmptyMat? && badAck != ACK
    ensures sentBuffers == [encode(f)] && stopped
  {
    var s := new VideoSendler.FromCamera("127.0.0.1", 8080, 0, encode);
    s.OpenSource(true);
    s.Connect(true);
    s.CaptureStep(Some(f), false);
    s.SendStep(true, Some(badAck));
    s.SendStep(true, Some(ACK));
    sentBuffers, stopped := s.sent, s.sendStage == Exited;
  }
}
