# VideoStreamer in Dafny

A model of the core of VideoStreamer, a C++ program that captures frames
from a camera or a video file, JPEG-encodes them and streams them over
TCP to a receiver that decodes and displays them. There are two senders and
one receiver:

- `VideoSendler` has one capture thread and one send thread. They share a
  single overwritable frame slot. Each frame goes out with a 4-byte length
  prefix, and the sender waits for a one-byte acknowledgement `'T'` before
  it sends the next.
- `VideoReceiver` is the TCP server of that protocol. It reads a length
  and then that many bytes, and decodes them. It writes `'T'` back for
  each frame that decodes, and enqueues that frame into a bounded queue
  unless the queue is full. A display loop shows the frames in FIFO order
  until ESC.
- `VideoSender` puts captured frames into a bounded queue of 10. For each
  frame it builds a message — JSON metadata text, a zero byte, then the
  JPEG payload — and hands it to a transport.
- `MetaData` is a JSON value paired with a validity flag.
- `main` is a command-line decision procedure. It either exits with 0 or
  -1, or starts the receiver or the sendler (on a camera or on a file). A
  `std::stoi` that throws on a port or camera value ends it instead,
  uncaught (`Terminated`).

The modules follow the program:

| file | module | what |
|---|---|---|
| bytes.dfy | `Bytes` | bytes, `uint32` truncation, the little-endian length field |
| wire.dfy | `Wire` | length-prefixed framing and deframing; the metadata + NUL + payload message |
| media.dfy | `Media` | decoded images (`Mat`) and thread stages |
| metadata.dfy | `Metadata` | the `MetaData` class |
| frame_queue.dfy | `FrameQueues` | the bounded drop-newest FIFO, as a class with a ghost log of every push and pop |
| video_sendler.dfy | `VideoSendlerModel` | the `VideoSendler` class, its capture and send loops as step methods |
| video_sender.dfy | `VideoSenderModel` | the `VideoSender` class, its capture and send loops as step methods, and any schedule of them |
| video_receiver.dfy | `VideoReceiverModel` | the `VideoReceiver` class: the session loop against a specification of a whole session, and the display loop |
| ack_protocol.dfy | `AckProtocol` | the acknowledgement lock-step of the sendler and the receiver, as one state machine over both ends |
| cli.dfy | `Cli` | `main` as a loop method, checked against a recursive specification, and its decision properties |

Each thread of the C++ program becomes a class whose loop is cut into
step methods: one turn of the loop, or one phase of it. Any interleaving
of these steps is a possible run. A step of a thread blocked in a wait
that no notification has reached changes nothing. The stop flags are
fields.

The environment is passed in as parameters:

- The OpenCV and JSON libraries (`imencode`, `imdecode`, `json::dump`,
  `json::parse`) are function-typed oracles.
- What each socket read or write returns is a step argument, except for
  `sender_->send` and the receiver's `accept`, which are taken to succeed
  (see "## Left out").
- `std::stoi` is an oracle that yields a number or throws.

Integer widths are written out where they matter:

- The length field is `static_cast<uint32_t>(size)`, that is, the size
  modulo 2^32, stored little-endian.
- Ports and camera indices are narrowed to `unsigned short`, that is,
  modulo 2^16.

The model follows the code where its description says otherwise:

- The receiver's queue drops the NEWEST frame when it is full
  (`OfferAllKeepsOldest`).
- The receiver enforces no upper bound on the announced length.
- The sendler ignores the result of `imencode`.
- The receiver acknowledges a frame before offering it to the queue, so a
  frame the full queue drops has still been acknowledged.

Some edge cases of the code as written are proved about the as-written
model:

- A payload of 2^32 bytes or more breaks the framing round trip
  (`TruncatedLengthBreaksRoundTrip`).
- A frame that does not decode gets no acknowledgement. Both ends then
  block forever (`UndecodableStalls`).
- `--port 65536` passes `main`'s zero check and reaches the receiver as
  port 0 (`ServerPort`).
- `VideoSender` hangs when the camera fails to open, or a read fails,
  while the send thread waits on an empty queue. The capture thread raises
  the flag without notifying the condition variable
  (src/video_sender.cpp:44-47, :55-58), and only a push or
  `stop()` notifies (src/video_sender.cpp:66, :124). Without a later
  `stop()`, no schedule ends the send thread
  (`CaptureFailureStrandsSendThread`, proved from `RunSchedule`).

`include/video_receiver.hpp` declares a different `VideoReceiver` from the
one `src/video_receiver.cpp` implements. The model follows the `.cpp`
file. The queue capacity is a constructor parameter of the model; the
header fixes it at 100 (include/video_receiver.hpp:42).

## Model

| member | source | states |
|---|---|---|
| Bytes.ToUint32 | src/video_sendler.cpp:83 | the `uint32_t` cast: the result is below 2^32 and equals the size whenever the size fits |
| Bytes.LE32 | src/video_sendler.cpp:83-86 | the 4-byte field written from `&bufferSize` (little-endian host): 4 bytes, low byte first, decoding back to the number |
| Bytes.DecodeLE32 | src/video_receiver.cpp:44-45 | reading `bufferSize` from 4 bytes gives a number below 2^32 whose low byte is the first byte |
| Bytes.EncodeDecodedLE32 | src/video_receiver.cpp:44-45 | every 4-byte field is the encoding of the number it decodes to |
| Wire.Frame | src/video_sendler.cpp:83-87 | a frame on the wire is the truncated length field followed by the payload, 4 + size bytes |
| Wire.FrameAll | src/video_sendler.cpp:74-87 | the stream of a connection on which the sendler wrote the given buffers one after another: empty exactly when nothing was written, and at least 4 bytes per buffer |
| Wire.FrameAllSnoc | src/video_sendler.cpp:74-104 | the stream after one more loop turn is the old stream followed by the new frame |
| Wire.NextFrame | src/video_receiver.cpp:44-48 | reading a frame fails exactly when fewer than 4 bytes, or fewer than the announced length, remain; otherwise the payload has the announced length and the rest is shorter than the input |
| Wire.NextFrameSplits | src/video_receiver.cpp:44-48 | whatever the receiver reads as a frame is one: the stream is the framing of that payload followed by the rest (the converse of `NextFrameOfFrame`) |
| Wire.NextFrameOfFrame | src/video_receiver.cpp:44-48 | a frame written by the sender (payload below 2^32 bytes) is read back as exactly its payload, leaving what follows |
| Wire.Deframe | src/video_receiver.cpp:43-48 | the payloads the receiver reads off a whole stream, in order, up to the first incomplete frame; each took at least 4 bytes of the stream |
| Wire.DeframeFrame | src/video_receiver.cpp:44-48 | deframing a frame followed by anything yields its payload and then the frames of the rest |
| Wire.DeframeAppend | src/video_sendler.cpp:83-87 | deframing the sender's stream followed by anything yields the sent payloads in order, then the frames of the rest |
| Wire.DeframeFrameAll | src/video_receiver.cpp:43-48 | the framing round trip: deframing the concatenated frames of payloads below 2^32 bytes gives back exactly those payloads |
| Wire.TruncatedLengthBreaksRoundTrip | src/video_sendler.cpp:83 | a payload of 2^32 bytes or more is not read back as itself, because its length field is truncated |
| Wire.Message | src/video_sender.cpp:110-114 | the message is the metadata text, one zero byte and the payload, in that order, of the summed length |
| Wire.FirstNul | src/video_sender.cpp:113 | the position of the first zero byte, with none before it, or none when the bytes hold no zero |
| Wire.SplitAtNul | src/video_sender.cpp:110-114 | splitting at the first zero byte yields a zero-free prefix and a rest that rebuild the message, and fails exactly when there is no zero byte |
| Wire.SplitMessage | src/video_sender.cpp:110-114 | a message whose metadata text has no zero byte splits back into exactly that text and that payload |
| Metadata.MetaData.constructor | src/metadata.cpp:3 | a fresh object is invalid and holds null |
| Metadata.MetaData.Create | include/metadata.hpp:14-23 | `create` stores the value and sets the flag; an assignment that throws leaves the value and clears the flag |
| Metadata.MetaData.Parse | src/metadata.cpp:5-19 | `parse` stores the parser's result and is valid exactly when it is not discarded; an exception clears the flag |
| Metadata.MetaData.IsValid | src/metadata.cpp:21-23 | `isValid()`: the flag left by the latest `create` or `parse` |
| Metadata.MetaData.Get | src/metadata.cpp:25-27 | `get()`: the value left by the latest `create` or `parse` |
| Metadata.CreateThenGet | src/video_sender.cpp:98-110 | create then get on a fresh object: valid, and get returns the created value |
| Metadata.FreshThenIsValid | src/metadata.cpp:3 | an object that was never filled is invalid and holds null |
| Metadata.ParseThenGet | src/metadata.cpp:5-27 | after parse, isValid tells whether parsing succeeded and get returns the parsed value, the discarded one included |
| Metadata.CreateAfterParse | include/metadata.hpp:14-23 | the latest operation decides: create after any parse gives valid and the created value |
| Metadata.ThrowingParseAfterCreate | src/metadata.cpp:15-18 | a throwing parse after create clears the flag but leaves the created value |
| FrameQueues.Admit | src/video_sender.cpp:64-66 | the push-when-not-full rule: the old contents stay in front, and the offered frame is appended exactly when the queue is below capacity |
| FrameQueues.OfferAll | src/video_receiver.cpp:57-62 | a run of offers with no pop between: the old contents stay in front, nothing is removed, and a queue within capacity stays within it |
| FrameQueues.OfferAllKeepsOldest | src/video_receiver.cpp:57-62 | offers with no pops in between keep the old contents in front and admit exactly the oldest newcomers that fit: drop-newest |
| FrameQueues.FullQueueIgnoresOffers | src/video_sender.cpp:62-68 | a full queue is left unchanged by any offers |
| FrameQueues.OverflowFromEmpty | src/video_receiver.cpp:57-62 | N offers to an empty queue of capacity C < N leave exactly the first C frames |
| FrameQueues.OfferAllSnoc | src/video_receiver.cpp:57-62 | one more offer after a sequence of offers is one more admission step |
| FrameQueues.OfferAllAppend | src/video_receiver.cpp:57-62 | offering two sequences in turn is offering their concatenation |
| FrameQueues.FrameQueue.constructor | include/video_receiver.hpp:42 | a new queue is empty, has the given capacity and has logged nothing |
| FrameQueues.FrameQueue.TryPush | src/video_receiver.cpp:59-61 | a push happens exactly when the queue is below capacity, appending at the back; otherwise the queue is unchanged; the size stays within capacity and FIFO order is kept |
| FrameQueues.FrameQueue.Pop | src/video_receiver.cpp:87-88 | the front element is returned and removed; FIFO order is kept |
| VideoSenderModel.FrameMetadata | src/video_sender.cpp:99-103 | the metadata object has `frame_size` and `timestamp` members |
| VideoSenderModel.MessageFor | src/video_sender.cpp:91-117 | the message one turn of `sendFrame` sends for a frame: one exactly when the frame encodes, as long as metadata text, zero byte and payload together |
| VideoSenderModel.Messages | src/video_sender.cpp:77-119 | the messages sent for the frames taken from the queue, in order, at most one per frame |
| VideoSenderModel.MessageForLayout | src/video_sender.cpp:92-114 | a frame that encodes is sent as text, zero byte and payload; the text splits off and describes a payload of exactly the bytes after it, stamped 1234567890 |
| VideoSenderModel.MessagesInOrder | src/video_sender.cpp:77-119 | when every frame encodes there is one message per frame, the i-th for the i-th frame taken from the queue |
| VideoSenderModel.VideoSender.constructor | src/video_sender.cpp:6-14 | a TCP sender is installed exactly for TCP and a UDP sender exactly for UDP, at the given address and port; the queue has capacity 10 and is empty |
| VideoSenderModel.VideoSender.Start | src/video_sender.cpp:18-31 | only the TCP transport is started before the threads; nothing else changes |
| VideoSenderModel.VideoSender.Stop | src/video_sender.cpp:122-125 | `stop()` raises the flag and wakes the send thread exactly when it is blocked in the wait; nothing else changes |
| VideoSenderModel.VideoSender.OpenCamera | src/video_sender.cpp:41-50 | a camera that fails to open raises the flag and ends capture; otherwise capture runs |
| VideoSenderModel.VideoSender.CaptureStep | src/video_sender.cpp:52-70 | one capture turn: leave on the flag; a failed read raises the flag and leaves without waking anyone; otherwise the frame is admitted exactly when fewer than 10 are queued, and only an admitted frame wakes a waiting send thread; the queue stays within 10 |
| VideoSenderModel.VideoSender.TakeFront | src/video_sender.cpp:87-88 | the front frame is taken and held, and leaves the queue |
| VideoSenderModel.VideoSender.SendStep | src/video_sender.cpp:77-120 | one phase of the send loop: leave on the flag at the loop head; block on an empty queue; while blocked, nothing happens until a notification arrives; once woken, block again on an empty queue with the flag down, leave on the flag with an empty queue, and otherwise take the front frame even with the flag up; send the held frame's message or skip it; no notification is left pending |
| VideoSenderModel.VideoSender.TransmitHeld | src/video_sender.cpp:91-118 | the held frame's message, if it encodes, is appended to what was sent; the loop returns to its head |
| VideoSenderModel.RunSchedule | src/video_sender.cpp:33-37 | under any interleaving of capture, send and stop steps the pipeline invariant holds (what was sent is the messages of the frames taken from the queue, in order), the queue holds at most 10 frames, sent messages are only appended, and once the flag is up at most one more message is sent; a send thread blocked with no notification pending after capture has ended stays blocked, sending nothing, under any schedule without `stop()` |
| VideoSenderModel.CaptureFailureStrandsSendThread | src/video_sender.cpp:44-58 | after the send thread blocks on an empty queue and the camera then fails to open, or a read fails, no schedule without `stop()` finishes the send thread or sends anything |
| VideoSendlerModel.LockStepWithFlagDown | src/video_sendler.cpp:74-98 | while the flag is down, every buffer written so far has had its acknowledgement read, and each was 'T' |
| VideoSendlerModel.LockStepAfterWrite | src/video_sendler.cpp:86-98 | after a write, a read failure or a wrong byte raises the flag and a 'T' keeps the lock-step |
| VideoSendlerModel.VideoSendler.FromFile | src/video_sendler.cpp:4-7 | the file-source constructor stores its arguments; the slot is empty and nothing has been sent |
| VideoSendlerModel.VideoSendler.FromCamera | src/video_sendler.cpp:9-12 | the camera-source constructor stores its arguments; the slot is empty and nothing has been sent |
| VideoSendlerModel.VideoSendler.OpenSource | src/video_sendler.cpp:25-36 | a source that fails to open raises the flag and ends capture |
| VideoSendlerModel.VideoSendler.CaptureStep | src/video_sendler.cpp:41-61 | one capture turn: leave on the flag; a failed read or ESC raises the flag; otherwise the slot is overwritten with the new frame |
| VideoSendlerModel.VideoSendler.Connect | src/video_sendler.cpp:67-71 | a failed connection raises the flag and ends the send thread |
| VideoSendlerModel.VideoSendler.SendStep | src/video_sendler.cpp:74-104 | one send turn: leave on the flag; an empty slot sends nothing; otherwise the slot's frame is encoded, framed and written; a failed write raises the flag; a new buffer is written only after every earlier buffer was acknowledged with 'T' |
| VideoSendlerModel.VideoSendler.WriteAndReadAck | src/video_sendler.cpp:83-98 | the length field and the buffer are appended to the wire; a failed read raises the flag; the flag is raised exactly when the byte read is not 'T' |
| VideoSendlerModel.SlotKeepsLatest | src/video_sendler.cpp:49-52 | the slot is overwritten and never cleared: with frames f1, f2, f3 captured around three sends, f1 goes out twice and f2 never |
| VideoSendlerModel.WrongAckStopsSending | src/video_sendler.cpp:95-98 | after a wrong acknowledgement nothing more is written |
| VideoReceiverModel.Serve | src/video_receiver.cpp:35-71 | a whole client session on a byte stream: it reads a prefix of the payloads the stream deframes into, each at least 4 bytes of the stream |
| VideoReceiverModel.ServeTurn | src/video_receiver.cpp:43-62 | one session turn: reads the next frame if there is one; acknowledges it exactly when it decodes and the reply write succeeds; goes on exactly when the frame was skipped or acknowledged, and stops when the stream holds no complete frame |
| VideoReceiverModel.ServeFrames | src/video_receiver.cpp:43-64 | the session loop run to its end over the complete frames: its turns one after another, stopping at the first turn that ends the session |
| VideoReceiverModel.Decoded | src/video_receiver.cpp:50-54 | the frames that decode to a non-empty image, in order: the frames the receiver acknowledges and queues |
| VideoReceiverModel.DecodedSnoc | src/video_receiver.cpp:50-54 | the decodable frames after one more frame are the old ones plus that frame, if it decodes |
| VideoReceiverModel.Acks | src/video_receiver.cpp:55 | n replies are n bytes, each 'T' |
| VideoReceiverModel.ServeReadsPrefix | src/video_receiver.cpp:43-64 | whatever happens, a session reads a prefix of the frames on its stream, in order |
| VideoReceiverModel.ServeAcksDecoded | src/video_receiver.cpp:50-62 | the acknowledged frames are the decodable frames read, except at most the last one, when its reply write failed |
| VideoReceiverModel.ServeWithAcksDelivered | src/video_receiver.cpp:43-64 | when every reply write succeeds the session reads every complete frame and acknowledges exactly the decodable ones |
| VideoReceiverModel.ServeSenderStream | src/video_receiver.cpp:43-64 | against the sender's stream with payloads below 2^32 bytes, the session reads back every payload sent and acknowledges exactly those that decode |
| VideoReceiverModel.DecodedAll | src/video_receiver.cpp:50-54 | when every frame decodes, the decodable frames are the decoded frames, one per frame, in order |
| VideoReceiverModel.VideoReceiver.constructor | src/video_receiver.cpp:9-11 | the receiver stores its settings, its queue is empty with the given capacity, and nothing is shown or stopped |
| VideoReceiverModel.VideoReceiver.StartDisplay | src/video_receiver.cpp:16-19 | `start()` puts the display loop in motion first |
| VideoReceiverModel.VideoReceiver.AcceptClient | src/video_receiver.cpp:21-30 | a client is accepted exactly when `stopDisplay` is down, starting a fresh session |
| VideoReceiverModel.VideoReceiver.HandleStep | src/video_receiver.cpp:43-64 | one turn of the session loop: leave on `stopDisplay`; otherwise the bytes read, the reply written, the queue change and whether the session goes on are those of `ServeTurn` |
| VideoReceiverModel.VideoReceiver.HandleClient | src/video_receiver.cpp:35-71 | a whole session: nothing when `stopDisplay` is up; otherwise the frames read, the replies written and the queue are those of `Serve` on the client's stream |
| VideoReceiverModel.VideoReceiver.RunSession | src/video_receiver.cpp:43-67 | the session loop, run to its end, does what `Serve` says |
| VideoReceiverModel.VideoReceiver.SessionTurn | src/video_receiver.cpp:43-64 | one loop turn keeps the session on track with its specification |
| VideoReceiverModel.VideoReceiver.DisplayStep | src/video_receiver.cpp:78-98 | one display turn: leave undrained on `stopDisplay`; stay blocked on an empty queue; otherwise show the front frame, and ESC raises `stopDisplay` |
| AckProtocol.Next | src/video_sendler.cpp:86-98 | one step of either end on the connection: the sender writes a buffer only when no acknowledgement is due and blocks reading one; the receiver acknowledges exactly a frame that decodes; a step that cannot be taken leaves the state as it is; no buffer is lost or reordered, and at most one is written or delivered per step |
| AckProtocol.Inv | src/video_receiver.cpp:43-62 | the lock-step invariant: at most one frame in flight, every byte coming back is 'T', and the receiver has delivered exactly the decodable frames it has read |
| AckProtocol.InitInv | src/video_sendler.cpp:67-73 | a fresh connection satisfies the lock-step invariant |
| AckProtocol.NextInv | src/video_receiver.cpp:44-62 | every sender or receiver step keeps the lock-step invariant |
| AckProtocol.RunInv | src/video_sendler.cpp:74-104 | under any interleaving of the two ends, every reachable state satisfies the invariant |
| AckProtocol.WriteOnlyAfterAck | src/video_sendler.cpp:86-98 | the sender writes frame k+1 only after it has read the acknowledgement of frame k, with nothing in flight |
| AckProtocol.AtMostOneUnacked | src/video_sendler.cpp:86-98 | at most one written frame is unacknowledged, and no more frames are delivered than written |
| AckProtocol.AckNeverRejected | src/video_sendler.cpp:95-98 | against this receiver every acknowledgement the sender reads is 'T', so it never stops on one |
| AckProtocol.UndecodableStalls | src/video_receiver.cpp:51-54 | once the receiver has read a frame that does not decode, no step is possible: the sender waits for a reply that never comes |
| AckProtocol.RoundOfDecodable | src/video_receiver.cpp:44-62 | a write–receive–acknowledge round of a decodable frame delivers it and leaves the link quiet |
| AckProtocol.RoundsDeliver | src/video_sendler.cpp:74-104 | n rounds of decodable frames write the next n frames and leave the link quiet |
| AckProtocol.AllDelivered | src/video_receiver.cpp:43-64 | from a fresh connection, when every frame decodes, all frames are written, acknowledged and delivered decoded, in order, with nothing in flight |
| Cli.Ushort | src/main.cpp:95 | the conversion to `unsigned short` yields a value below 2^16 congruent to its argument |
| Cli.ScanArgs | src/main.cpp:63-84 | the argument loop: it stops on an argument that is no flag or a value flag in last position, and throws only on a port or camera value that `stoi` rejects |
| Cli.Dispatch | src/main.cpp:86-127 | the decision tree: it exits only with -1, starts the server exactly with the server flag and a non-zero port, and starts a client only with the client flag, an address and a non-zero port, on the camera exactly when one was given with a non-negative index |
| Cli.Decide | src/main.cpp:42-127 | the whole decision; it terminates only on a value of its arguments that `stoi` rejects |
| Cli.MainDecision | src/main.cpp:42-127 | `main`'s loop over the arguments and its decision tree give the outcome `Decide` specifies |
| Cli.ShortCommandLines | src/main.cpp:42-51 | exactly one argument `--help` exits with 0; any other single argument, or none, exits with -1 |
| Cli.ExitCodes | src/main.cpp:42-127 | among the decisions made before a component starts, an exit with 0 happens exactly for `--help`, and every exit code is 0 or -1 (a started component is followed by the return of 0 at src/main.cpp:129-130, which the outcome stands for) |
| Cli.ScanAppend | src/main.cpp:63-84 | a scan that consumed a prefix carries on over the rest with the values it reached |
| Cli.UnknownArgumentFails | src/main.cpp:79-83 | an unrecognised argument reached by the scan exits with -1, whatever follows |
| Cli.DanglingValueFlagFails | src/main.cpp:70-83 | a value flag in last position, with no value, exits with -1 |
| Cli.RepeatedValueFlagKeepsLast | src/main.cpp:70-78 | a value flag given twice, with any complete arguments between, keeps the second value: dropping the first occurrence and its value leaves the outcome unchanged, once its `stoi`, if any, returned |
| Cli.ScanShift | src/main.cpp:63-84 | the scan of the arguments after a prefix does not depend on that prefix |
| Cli.ScanAgree | src/main.cpp:70-78 | locals differing only in what one value flag sets scan any arguments to the same kind of end, differing at most there |
| Cli.ScanAfterPrefix | src/main.cpp:63-84 | once a prefix has been scanned completely, the rest is scanned from the locals it left |
| Cli.SecondOccurrenceOverwrites | src/main.cpp:70-78 | after complete arguments and a second occurrence of a value flag, locals that differed only in that flag's setting are equal |
| Cli.ServerWins | src/main.cpp:86-97 | with the server flag set the outcome depends on the port only: -1 for port 0, else the server on the narrowed port |
| Cli.ClientNeedsAddress | src/main.cpp:99-103 | client mode without an address or with port 0 exits with -1 |
| Cli.ClientSource | src/main.cpp:105-122 | a camera takes precedence over a file; a negative camera index, or no source, exits with -1 |
| Cli.ServerPort | src/main.cpp:72-97 | `--server --port s`: a throwing `stoi` terminates, port 0 exits with -1, any other port starts the server on the port modulo 2^16 (so 65536 becomes 0) |

## Left out

- Threads, mutexes and condition variables: they are modelled as
  interleavable step methods, each step atomic. The stop flags are
  `std::atomic<bool>` (include/video_sendler.hpp:34,
  include/video_sender.hpp:50, src/video_receiver.cpp:7), so reading them
  is race-free. Unsynchronised use of shared data is not modelled: the
  sendler calls `imshow(sharedFrame_)` outside the lock
  (src/video_sendler.cpp:55).
- Spurious wake-ups of `frameCondVar_.wait` are not modelled. The wait
  re-tests its predicate after any wake-up, so one would only add steps
  that block again.
- `VideoSender::stop()` raises the flag without taking the queue mutex, so
  its `notify_all` can fall between the send thread's predicate test and
  its blocking, and be lost. `VideoSenderModel.VideoSender.Stop` is one
  atomic step and does not model that lost wake-up.
- Sockets, Boost.Asio, `connectToServer` and the accept loop's endpoint
  logging: what the socket calls return are step arguments.
  `boost::asio::write` and `boost::asio::read` complete or throw.
- VideoSendlerModel.VideoSendler.SendStep: the sendler writes the length
  field and the buffer in two calls (src/video_sendler.cpp:86-87). A
  throw from the second leaves the length field alone on the wire. The
  model's failed write (`!writeOk`) leaves the wire unchanged instead.
- VideoSenderModel.VideoSender.TransmitHeld: `sender_->send` is taken to
  succeed. It sits outside any `try` (src/video_sender.cpp:117), and
  `UDPSender::send` lets the exception of a failed `send_to` escape
  (src/udp_sender.cpp:15), so a failed send ends the program.
- VideoReceiverModel.VideoReceiver.AcceptClient: `acceptor_.accept` and
  `remote_endpoint` are taken to succeed whenever `stopDisplay` is down.
  They sit outside any `try` (src/video_receiver.cpp:22-24), so a throw
  from them ends the server.
- VideoSendlerModel.VideoSendler.SendStep: `encode` always yields the
  encoding of the frame. The sendler ignores the result of `imencode` and
  reuses one `buffer` across turns (src/video_sendler.cpp:73, :82), so
  after a failed encode it may write stale or empty bytes.
- VideoSenderModel.VideoSender.TransmitHeld: `metaData.create` is taken not
  to throw, so the `!isValid()` skip (src/video_sender.cpp:105-108) never
  fires in the model. The assignment of a freshly built `json` object
  does not throw short of memory exhaustion.
- OpenCV and JSON: `imencode`, `imdecode`, `VideoCapture`, `imshow`,
  `waitKey`, `json::dump` and `json::parse` are oracles or step arguments.
  `cv::Mat` cloning and sharing are not modelled. The window setup and the
  `destroyAllWindows` call are not modelled.
- Frame timing: `targetFPS`, the `waitKey` delays and the timestamps in
  log lines are not modelled.
- The logger and all log messages.
- `printUsage` text and `getLocalIPAddress`, which is network I/O.
- The receiver's `estimatedBufferSize`: it is only a `reserve` hint, with
  no observable effect.
- The receiver's queue, mutex and stop flag are `static` and so shared by
  all instances and all concurrent client sessions. The model handles one
  session at a time on one instance.
- `TCPSender`, `UDPSender`, `TCPReceiver` and `UDPReceiver` internals:
  `sender_->send` is modelled as appending to the list of sent messages.
- The YAML-driven mains in src/main_sender.cpp and src/main_receiver.cpp.
- `std::stoi` parsing: it is an oracle that yields a number or throws.
  Its acceptance of leading whitespace and trailing junk is not modelled.
- Cli.MainDecision: the started components' own runs are not modelled.
  `StartServer`, `StartCameraClient` and `StartFileClient` stand for
  "start it, and return 0 once it returns".
- AckProtocol: each direction of the connection carries whole payloads.
  The byte-level framing is proved separately in `Wire`.
- VideoReceiverModel: the session specification `Serve` works on the
  frames the stream deframes into. A trailing partial frame, like a short
  read, ends the session.
