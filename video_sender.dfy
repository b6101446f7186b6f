/** `VideoSender`: a capture stage and a send stage joined by a bounded
    queue of at most 10 frames. Each frame taken from the queue is
    JPEG-encoded, given metadata, laid out as metadata text, a zero byte
    and the payload, and handed to the transport chosen at construction.

    The two threads become step methods: `CaptureStep` is one turn of the
    capture loop, `SendStep` advances the send loop by one of its phases.
    Any interleaving of steps, and of `Stop`, is a run of the pipeline. */
module VideoSenderModel {
  import opened Bytes
  import opened Wire
  import opened Media
  import opened Metadata
  import opened FrameQueues

  datatype ProtocolType = TCP | UDP

  /** The transport object installed by the constructor. */
  datatype Transport =
    | TcpSender(address: string, port: nat, started: bool)
    | UdpSender(address: string, port: nat)

  /** Where the send thread is: at the top of `while (!stopFlag)`, blocked
      in the condition-variable wait, holding a dequeued frame, or returned. */
  datatype SendPhase = AtLoopHead | Waiting | Holding(frame: Mat) | Finished

  const MAX_QUEUE_SIZE: nat := 10
  const TIMESTAMP: int := 1234567890

  /** The metadata `sendFrame` creates for a payload of `size` bytes. */
  function FrameMetadata(size: nat): (j: Json)
    ensures j.Object? && "frame_size" in j.members && "timestamp" in j.members
  {
    Object(map["frame_size" := Number(size), "timestamp" := Number(TIMESTAMP)])
  }

  /** What one turn of `sendFrame` hands the transport for `frame`: nothing
      when the encoder fails, otherwise the metadata text of a payload that
      size, a zero byte and the payload. */
  function MessageFor(frame: Mat, encode: Mat -> Option<seq<byte>>, dump: Json -> seq<byte>)
    : (r: Option<seq<byte>>)
    ensures r.Some? <==> encode(frame).Some?
    ensures r.Some? ==> |r.value| == |dump(FrameMetadata(|encode(frame).value|))| + 1 + |encode(frame).value|
  {
    match encode(frame)
    case None => None
    case Some(payload) => Some(Message(dump(FrameMetadata(|payload|)), payload))
  }

  /** The messages sent for the frames `frames`, taken in this order. */
  function Messages(frames: seq<Mat>, encode: Mat -> Option<seq<byte>>, dump: Json -> seq<byte>)
    : (r: seq<seq<byte>>)
    ensures |r| <= |frames|
  {
    if frames == [] then []
    else
      var last := frames[|frames| - 1];
      Messages(frames[..|frames| - 1], encode, dump)
        + (match MessageFor(last, encode, dump) case None => [] case Some(m) => [m])
  }

  /** A sent message is the metadata text, one zero byte and the payload;
      its length is their sum; when the text has no zero byte, splitting at
      the first zero byte yields the metadata describing a payload of
      exactly the bytes after the delimiter, stamped 1234567890. */
  lemma MessageForLayout(frame: Mat, encode: Mat -> Option<seq<byte>>, dump: Json -> seq<byte>)
    requires encode(frame).Some?
    requires NoNul(dump(FrameMetadata(|encode(frame).value|)))
    ensures MessageFor(frame, encode, dump).Some?
    ensures var m := MessageFor(frame, encode, dump).value;
            var p := encode(frame).value;
            |m| == |dump(FrameMetadata(|p|))| + 1 + |p| &&
            exists text, payload ::
              SplitAtNul(m) == Some((text, payload)) && payload == p && text == dump(FrameMetadata(|payload|))
              && FrameMetadata(|payload|).members["frame_size"] == Number(|payload|)
              && FrameMetadata(|payload|).members["timestamp"] == Number(1234567890)
  {
    var p := encode(frame).value;
    var text := dump(FrameMetadata(|p|));
    SplitMessage(text, p);
  }

  /** Sending is in queue order: the messages for `frames + [f]` are those
      for `frames`, then the one for `f`, if `f` encodes. */
  lemma MessagesSnoc(frames: seq<Mat>, f: Mat, encode: Mat -> Option<seq<byte>>, dump: Json -> seq<byte>)
    ensures encode(f).None? ==> Messages(frames + [f], encode, dump) == Messages(frames, encode, dump)
    ensures encode(f).Some? ==>
      Messages(frames + [f], encode, dump) == Messages(frames, encode, dump) + [MessageFor(f, encode, dump).value]
  {
    assert (frames + [f])[..|frames|] == frames;
  }

  /** When every frame encodes, there is one message per frame, the i-th
      for the i-th frame. */
  lemma {:induction false} MessagesInOrder(frames: seq<Mat>, encode: Mat -> Option<seq<byte>>, dump: Json -> seq<byte>)
    requires forall i :: 0 <= i < |frames| ==> encode(frames[i]).Some?
    ensures |Messages(frames, encode, dump)| == |frames|
    ensures forall i :: 0 <= i < |frames| ==>
      Messages(frames, encode, dump)[i] == MessageFor(frames[i], encode, dump).value
  {
    if frames != [] {
      var init := frames[..|frames| - 1];
      MessagesInOrder(init, encode, dump);
      assert frames == init + [frames[|frames| - 1]];
      MessagesSnoc(init, frames[|frames| - 1], encode, dump);
    }
  }

  class VideoSender {
    const address: string
    const port: nat
    const cameraIndex: nat
    const protocol: ProtocolType
    /** The JPEG encoder (`cv::imencode` at quality 90) and `json::dump`. */
    const encode: Mat -> Option<seq<byte>>
    const dump: Json -> seq<byte>
    const frameQueue: FrameQueue<Mat>

    var transport: Transport
    var stopFlag: bool
    var captureStage: Stage
    var sendPhase: SendPhase
    /** The messages given to `sender_->send`, in order. */
    var sent: seq<seq<byte>>
    /** The frames whose turn of the send loop is over. */
    ghost var transmitted: seq<Mat>
    /** A `notify_one` or `notify_all` has reached the send thread while it
        was blocked in `frameCondVar_.wait` and has not been consumed yet. A
        notification with no thread waiting is lost. */
    var woken: bool

    ghost predicate Valid()
      reads this, frameQueue
    {
      frameQueue.Valid() && frameQueue.capacity == MAX_QUEUE_SIZE &&
      frameQueue.taken == transmitted + (if sendPhase.Holding? then [sendPhase.frame] else []) &&
      sent == Messages(transmitted, encode, dump) &&
      (transport.TcpSender? <==> protocol == TCP) &&
      transport.address == address && transport.port == port &&
      (woken ==> sendPhase == Waiting) &&
      (sendPhase == Waiting && !woken ==> frameQueue.items == [])
    }

    /** The constructor installs a TCP sender exactly for TCP and a UDP
        sender exactly for UDP; nothing is connected yet. */
    constructor (address: string, port: nat, cameraIndex: nat, protocol: ProtocolType,
                 encode: Mat -> Option<seq<byte>>, dump: Json -> seq<byte>)
      ensures Valid() && fresh(frameQueue)
      ensures this.address == address && this.port == port && this.cameraIndex == cameraIndex
      ensures this.protocol == protocol && this.encode == encode && this.dump == dump
      ensures protocol == TCP ==> transport == TcpSender(address, port, false)
      ensures protocol == UDP ==> transport == UdpSender(address, port)
      ensures !stopFlag && captureStage == NotStarted && sendPhase == AtLoopHead
      ensures sent == [] && frameQueue.items == [] && !woken
    {
      this.address, this.port, this.cameraIndex, this.protocol := address, port, cameraIndex, protocol;
      this.encode, this.dump := encode, dump;
      frameQueue := new FrameQueue<Mat>(MAX_QUEUE_SIZE);
      if protocol == TCP {
        transport := TcpSender(address, port, false);
      } else {
        transport := UdpSender(address, port);
      }
      stopFlag := false;
      captureStage, sendPhase := NotStarted, AtLoopHead;
      sent, transmitted := [], [];
      woken := false;
    }

    /** `start()` before the threads: only the TCP sender is started. */
    method Start()
      requires Valid()
      modifies this
      ensures Valid()
      ensures protocol == TCP ==> transport == TcpSender(address, port, true)
      ensures protocol == UDP ==> transport == old(transport)
      ensures stopFlag == old(stopFlag) && captureStage == old(captureStage) && woken == old(woken)
      ensures sendPhase == old(sendPhase) && sent == old(sent) && transmitted == old(transmitted)
    {
      if protocol == TCP {
        transport := transport.(started := true);
      }
    }

    /** `stop()`: raise the flag and wake the send thread if it is blocked
        in the wait. */
    method Stop()
      requires Valid()
      modifies this
      ensures Valid() && stopFlag
      ensures woken == (old(woken) || sendPhase == Waiting)
      ensures transport == old(transport) && captureStage == old(captureStage)
      ensures sendPhase == old(sendPhase) && sent == old(sent) && transmitted == old(transmitted)
    {
      stopFlag := true;
      if sendPhase == Waiting {
        woken := true;
      }
    }

    /** Opening the camera at the top of `captureFrame`; a failure raises
        the flag and returns. */
    method OpenCamera(isOpened: bool)
      requires Valid() && captureStage == NotStarted
      modifies this
      ensures Valid()
      ensures isOpened ==> captureStage == Running && stopFlag == old(stopFlag)
      ensures !isOpened ==> captureStage == Exited && stopFlag
      ensures transport == old(transport) && sendPhase == old(sendPhase) && woken == old(woken)
      ensures sent == old(sent) && transmitted == old(transmitted)
    {
      if isOpened {
        captureStage := Running;
      } else {
        stopFlag := true;
        captureStage := Exited;
      }
    }

    /** One turn of the capture loop: leave when the flag is up; a failed
        read raises the flag and leaves, notifying nobody; a frame is
        enqueued only when the queue holds fewer than 10, and dropped
        otherwise; only an enqueued frame wakes the send thread. */
    method CaptureStep(read: Option<Mat>)
      requires Valid() && captureStage == Running
      modifies this, frameQueue
      ensures Valid()
      ensures old(stopFlag) ==> captureStage == Exited && frameQueue.items == old(frameQueue.items) && stopFlag
      ensures !old(stopFlag) && read.None? ==>
        captureStage == Exited && stopFlag && frameQueue.items == old(frameQueue.items)
      ensures !old(stopFlag) && read.Some? ==>
        captureStage == Running && stopFlag == old(stopFlag) &&
        frameQueue.items == Admit(old(frameQueue.items), read.value, MAX_QUEUE_SIZE)
      ensures |frameQueue.items| <= MAX_QUEUE_SIZE
      ensures old(|frameQueue.items|) >= MAX_QUEUE_SIZE ==> frameQueue.items == old(frameQueue.items)
      ensures frameQueue.taken == old(frameQueue.taken)
      ensures woken == (old(woken) || (!old(stopFlag) && read.Some? &&
                                       old(|frameQueue.items|) < MAX_QUEUE_SIZE && sendPhase == Waiting))
      ensures transport == old(transport) && sendPhase == old(sendPhase)
      ensures sent == old(sent) && transmitted == old(transmitted)
    {
      if stopFlag {
        captureStage := Exited;
        return;
      }
      if read.None? {
        stopFlag := true;
        captureStage := Exited;
        return;
      }
      var pushed := frameQueue.TryPush(read.value);
      if pushed && sendPhase == Waiting {
        woken := true;
      }
    }

    /** Take the front frame and hold it. */
    method TakeFront()
      requires Valid() && !sendPhase.Holding? && frameQueue.items != []
      modifies this, frameQueue
      ensures Valid()
      ensures sendPhase == Holding(old(frameQueue.items)[0])
      ensures frameQueue.items == old(frameQueue.items)[1..] && !woken
      ensures stopFlag == old(stopFlag) && transport == old(transport) && captureStage == old(captureStage)
      ensures sent == old(sent) && transmitted == old(transmitted)
    {
      var f := frameQueue.Pop();
      sendPhase := Holding(f);
      woken := false;
    }

    /** Advance the send thread by one phase.
        - At the loop head: leave if the flag is up; otherwise the wait
          tests its predicate first: block on an empty queue, else take the
          front frame.
        - Waiting: nothing happens until a notification arrives. Then the
          predicate is tested again: block again while the queue is empty
          and the flag down; leave if the flag is up and the queue is empty;
          otherwise take the front frame, even with the flag up.
        - Holding a frame: encode it; on failure skip it; otherwise create
          its metadata and send text, zero byte and payload. Back to the
          loop head either way. */
    method SendStep()
      requires Valid() && !sendPhase.Finished?
      modifies this, frameQueue
      ensures Valid()
      ensures old(sendPhase).AtLoopHead? && old(stopFlag) ==>
        sendPhase == Finished && frameQueue.items == old(frameQueue.items)
      ensures old(sendPhase).AtLoopHead? && !old(stopFlag) && old(frameQueue.items) == [] ==>
        sendPhase == Waiting && frameQueue.items == old(frameQueue.items)
      ensures old(sendPhase).Waiting? && !old(woken) ==>
        sendPhase == Waiting && frameQueue.items == old(frameQueue.items)
      ensures old(sendPhase).Waiting? && old(woken) && !old(stopFlag) && old(frameQueue.items) == [] ==>
        sendPhase == Waiting && frameQueue.items == old(frameQueue.items)
      ensures old(sendPhase).Waiting? && old(woken) && old(stopFlag) && old(frameQueue.items) == [] ==>
        sendPhase == Finished && frameQueue.items == old(frameQueue.items)
      ensures ((old(sendPhase).AtLoopHead? && !old(stopFlag)) || (old(sendPhase).Waiting? && old(woken))) &&
              old(frameQueue.items) != [] ==>
        sendPhase == Holding(old(frameQueue.items)[0]) && frameQueue.items == old(frameQueue.items)[1..]
      ensures !old(sendPhase).Holding? ==> sent == old(sent)
      ensures old(sendPhase).Holding? ==>
        sendPhase == AtLoopHead && frameQueue.items == old(frameQueue.items) &&
        sent == old(sent) + (match MessageFor(old(sendPhase).frame, encode, dump) case None => [] case Some(m) => [m])
      ensures !woken && frameQueue.admitted == old(frameQueue.admitted)
      ensures stopFlag == old(stopFlag) && transport == old(transport) && captureStage == old(captureStage)
    {
      match sendPhase
      case AtLoopHead =>
        if stopFlag {
          sendPhase := Finished;
        } else if frameQueue.items == [] {
          sendPhase := Waiting;
        } else {
          TakeFront();
        }
      case Waiting =>
        if !woken {
          // blocked in the wait: no notification has arrived
        } else if frameQueue.items == [] {
          woken := false;
          if stopFlag {
            sendPhase := Finished;
          }
        } else {
          TakeFront();
        }
      case Holding(_) =>
        TransmitHeld();
    }

    /** The rest of a turn of `sendFrame` once a frame is held: encode it;
        on failure skip it; otherwise create its metadata and send text,
        zero byte and payload. `create` is taken not to throw. */
    method TransmitHeld()
      requires Valid() && sendPhase.Holding?
      modifies this
      ensures Valid()
      ensures sendPhase == AtLoopHead && !woken
      ensures sent == old(sent) + (match MessageFor(old(sendPhase).frame, encode, dump) case None => [] case Some(m) => [m])
      ensures stopFlag == old(stopFlag) && transport == old(transport) && captureStage == old(captureStage)
    {
      var frame := sendPhase.frame;
      MessagesSnoc(transmitted, frame, encode, dump);
      var encoded := encode(frame);
      if encoded.None? {
        // cv::imencode failed: skip the frame, nothing is sent
      } else {
        var payload := encoded.value;
        var md := new MetaData();
        md.Create(FrameMetadata(|payload|), false);
        assert md.IsValid();
        var text := dump(md.Get());
        var dataToSend := text + [NUL] + payload;
        sent := sent + [dataToSend];
      }
      transmitted := transmitted + [frame];
      sendPhase := AtLoopHead;
    }

    /** Frames still able to be sent by the send thread if the flag is up:
        one while it waits or holds a frame, none otherwise. */
    ghost function InFlight(): nat
      reads this
    {
      if sendPhase.Holding? || sendPhase.Waiting? then 1 else 0
    }
  }

  datatype Event = Capture(read: Option<Mat>) | Send | StopCalled

  /** Runs a schedule of thread steps on `s` (a step of a stage that is not
      inside its loop does nothing). Whatever the interleaving, the queue
      never holds more than 10 frames, messages are only ever appended, and
      once the flag is up at most one more message is sent. A send thread
      blocked on an empty queue after the capture thread has left stays
      blocked under every schedule without a `stop()`. */
  method RunSchedule(s: VideoSender, events: seq<Event>)
    requires s.Valid()
    modifies s, s.frameQueue
    ensures s.Valid()
    ensures |s.frameQueue.items| <= MAX_QUEUE_SIZE
    ensures old(s.sent) <= s.sent
    ensures old(s.stopFlag) ==> s.stopFlag && |s.sent| <= |old(s.sent)| + 1
    ensures Stranded(old(s.captureStage), old(s.sendPhase), old(s.woken)) && NoStop(events) ==>
      s.sendPhase == Waiting && s.frameQueue.items == [] && s.sent == old(s.sent)
  {
    var i := 0;
    while i < |events|
      invariant 0 <= i <= |events|
      invariant s.Valid()
      invariant old(s.sent) <= s.sent
      invariant old(s.stopFlag) ==> s.stopFlag && |s.sent| + s.InFlight() <= |old(s.sent)| + 1
      invariant Stranded(old(s.captureStage), old(s.sendPhase), old(s.woken)) && NoStop(events) ==>
        s.captureStage == Exited && s.sendPhase == Waiting && !s.woken && s.sent == old(s.sent)
    {
      match events[i] {
        case Capture(read) =>
          if s.captureStage == Running {
            s.CaptureStep(read);
          }
        case Send =>
          if !s.sendPhase.Finished? {
            s.SendStep();
          }
        case StopCalled =>
          s.Stop();
      }
      i := i + 1;
    }
  }

  /** No event of the schedule is a call of `stop()`. */
  predicate NoStop(events: seq<Event>)
  {
    forall i :: 0 <= i < |events| ==> !events[i].StopCalled?
  }

  /** The capture thread has left its loop while the send thread is
      blocked in the wait with no notification pending. */
  predicate Stranded(captureStage: Stage, sendPhase: SendPhase, woken: bool)
  {
    captureStage == Exited && sendPhase == Waiting && !woken
  }

  /** The pipeline as written hangs when the camera fails to open, or a
      read fails, while the send thread waits on an empty queue: the
      capture thread raises the flag without notifying, so without a later
      `stop()` no schedule of further steps ends the send thread. */
  method CaptureFailureStrandsSendThread(address: string, port: nat, cameraIndex: nat, protocol: ProtocolType,
                                         encode: Mat -> Option<seq<byte>>, dump: Json -> seq<byte>,
                                         cameraOpens: bool, events: seq<Event>)
    returns (finished: bool, sentCount: nat)
    requires NoStop(events)
    ensures !finished && sentCount == 0
  {
    var s := new VideoSender(address, port, cameraIndex, protocol, encode, dump);
    if cameraOpens {
      s.OpenCamera(true);
      s.SendStep();
      s.CaptureStep(None);
    } else {
      s.SendStep();
      s.OpenCamera(false);
    }
    RunSchedule(s, events);
    finished := s.sendPhase.Finished?;
    sentCount := |s.sent|;
  }
}
