# A verified model of the AirPlay receiver and of the metrics exporter

The repository contains an AirPlay receiver written in C (`include/AirPlayServer/lib`) and a Prometheus
exporter written in C++ (`src/default/prometheus`). This project models the parts of both that carry state
from one call to the next, and proves what their callers rely on. Code that changes its state step by step is
modelled by classes and loops, proved against specification functions; the theorems over whole runs are proved
about those functions and then carried over to the classes.

The main results:

- **Mirror video, end to end** (`MirrorSender.Receive`, `MirrorSender.CutAnywhere`). A client length-prefixes
  its NAL units, encrypts its frames with one keystream that runs through all of them, sends SPS and PPS in the
  clear, and puts a 128-byte header in front of every packet. However TCP cuts its stream, and wherever `recv`
  runs into its timeout, the video callback gets exactly the start-code form of each frame, in order, with an
  SPS+PPS in front where one of the same time stamp was waiting. No SPS+PPS is used twice
  (`MirrorSender.UsedOnce`). The thread outlives every timeout, ends exactly at a failure or a close, and on a
  schedule that brings all bytes delivers all frames. Three results that stand on their own compose into this one: the framing does not
  depend on arrival (`MirrorThreads.MirrorThread.ServeConnection`), the cut into packets does not show in the
  plaintext (`MirrorBuffers.MirrorBuffer.Decrypt`, `MirrorBuffers.CutsDoNotShow`), and the in-place NAL rewrite
  ends valid exactly if every unit passes (`NalRewrite.ScanLengthPrefixed`, with the converse
  `NalRewrite.ValidTiles`).
- **Audio reorder ring** (`AudioRuns.Play`, `Reorder.EveryRunIsGood`). The ring of 32 slots under wrapping
  16-bit numbers refines a window of packets keyed by unbounded numbers. In every run the numbers handed over
  strictly increase, every packet comes out as the client encoded it, no payload is lost or overwritten, and
  resend requests cover exactly the missing packets before the first one that is there. Packets that come in any
  order within a window come out in order, and one beyond it starts the buffer anew and is the next to come out
  (`Reorder.AnyOrderComesOut`, `Reorder.FreshStart`).
- **SRP-6a pairing** (`Srp.SecretsAgree`, `Pairing.PairWithHonestClient`). The two formulas for the shared
  secret agree for all inputs, also where the client's base is negative, and PIN pairing completes on both sides
  exactly if the client sees neither a zero B nor a zero u. What each hash is taken of is stated byte by byte
  (`Srp.HashPairReads`, `Srp.ProofReads`).
- **Clocks** (`NtpTime.RoundTripInEra`, `NtpTime.RoundTripExactly`, `ClockFilter.Synchronise`,
  `RtpClocks.ClockIsTrueTime`). The exact loss of the NTP field and the exact range in which a time comes back;
  the bound on the chosen clock offset over a whole run; the 64-bit RTP clock as the true time through any number
  of wraps.
- **Worker lifecycle and connection table** (`Lifecycle.WorkersAreExclusive`, `Connections.Httpd.Admit`). Under
  every interleaving one worker at most is alive, each is joined once at most, and no old worker clears a newer
  one's flag; a stop call under way is never stuck nor put off, and a restart works from every run
  (`Lifecycle.StopGoesOn`, `Lifecycle.RestartWorks`); in every state of the table there is one client at most.
- **Metrics** (`Families.SeriesAreDistinct`, `TextSerializer.HeadParses`, `Histograms.Histogram.Collect`).
  Printed label lists can be parsed back, so no two label sets of a family ever share a head; the histogram agrees
  with naive counting.

Where the code does less than a caller might expect, the exact condition is proved:

- The assertion at `raop_rtp_mirror.c:413` fails exactly when H.265 was seen and a second frame of the last codec
  packet's time comes, with no other frame in between (`PendingCodec.AssertionFailsExactly`): the first one, valid
  or not, has taken the SPS+PPS and left their flag. Such a run is `PendingCodec.FailureHappens`; without H.265 it
  never comes to it (`MirrorProtocol.PendingIsHeld`).
- The rewrite loop may read behind its buffer: up to three bytes at a length that is cut off, and the one or two
  bytes after a length (`NalRewrite.LooksBehind`). How it ends depends on them if and only if a length ends the
  payload, or one byte after it does that may begin an H.265 unit (`NalRewrite.DecidesExactly`; for the frames of a
  run `MirrorProtocol.OutcomeDependsExactly` and `MirrorProtocol.FrameDependsExactly`). On a well-formed client's
  frames it never reads them (`MirrorSender.FramesStayInside`).
- The second step of pairing reads a null pointer exactly when there is no session data, which is also so after a
  wrong proof, or when the client's key is zero modulo N or longer than N (`Pairing.Session.ValidateProof`,
  `Pairing.VerifierExistsExactly`).
- A worker that ends on its own clears `running` but not `joined`: `stop` then returns without a join, and no later
  `start` does anything (`Lifecycle.SelfExitOrphans`, `Lifecycle.OrphanedForever`). Nothing else brings this about
  (`Lifecycle.OrphanedExactly`), so `start` works exactly if no worker runs, none is being stopped, and none has
  ever ended on its own (`Lifecycle.StartableExactly`).
- `raop_buffer_handle_resends` does not test `is_empty`. On a started buffer its requests are exact
  (`Reorder.ResendIsExact`); on one that is not, it asks for all numbers of the stale window but the last
  (`Reorder.ResendOfStaleWindow`, and `Reorder.StaleWindowIsAskedFor` for a run).
- A time stamp that goes through the NTP field comes back, at most a nanosecond short, exactly if it lies before the
  end of the NTP era in 2036 (`NtpTime.RoundTripExactly`).
- `rtp64_time` follows a step exactly if it is at most half the 32-bit range forward, or less than half of it back
  (`RtpClocks.StepIsFollowedExactly`, and over whole runs `RtpClocks.ClockIsTrueExactly`).
- Two buckets of one histogram share a printed head exactly if their boundaries print the same, which 16 digits do
  not rule out (`Families.BucketsAreDistinctExactly`, `Families.CloseBucketsShareHead`).
- The comment on bucket intervals in the histogram's header disagrees with the code. The code puts a value that
  equals a boundary into the bucket that this boundary closes, and so does the model.

Modelling decisions:

- A byte is an integer from 0 to 255, and exclusive-or is defined bit by bit. Fixed-width arithmetic (16-bit
  sequence numbers, 32-bit RTP time, 64-bit nanoseconds, signed `short` and `int` lengths) is written out with its
  wrap-around.
- AES in counter mode is an arbitrary keystream with a position, a block cipher an arbitrary pair of functions (of
  which the round trip assumes that one undoes the other), a hash an arbitrary function. The final call of each
  encryption is taken not to move the cipher's position.
- Random numbers, clock readings, the results of `recv` and the addresses of new objects are inputs.
- What lies behind the output buffer of a video packet is an arbitrary input. Two bytes of it are modelled; the
  third one that a cut-off length may reach never matters, since such a length is rejected whatever it is.
- Ghost state (unbounded sequence numbers, the packets handled so far, the values observed so far, the samples
  measured so far) exists for specification only.

## Model

| member | source | states |
|---|---|---|
| MirrorSender.Receive | include/AirPlayServer/lib/raop_rtp_mirror.c:284-537 | End to end: on a connection to an H.264 client, under any schedule, the callbacks are a prefix of the expected frames, and all of them if every byte came. The thread reads on through every timeout and ends exactly at a failure or a close; with no such event and at least as many pieces as bytes, every frame comes |
| MirrorSender.HeadersAreSmall | include/AirPlayServer/lib/raop_rtp_mirror.c:284-307 | A header of the client that has come in never states a size on which the model stops |
| MirrorSender.CutAnywhere | include/AirPlayServer/lib/raop_rtp_mirror.c:284-537 | For every length of a received prefix of the client's stream, the packets in it can be handled and give the first of the expected frames; the whole stream gives all of them |
| MirrorSender.Receives | include/AirPlayServer/lib/raop_rtp_mirror.c:366-537 | A well-formed client's packets never hit the assertion or overflow a sum, and the callbacks are exactly the expected start-code frames, each behind the SPS+PPS that waited for its time stamp |
| MirrorSender.FramesStayInside | include/AirPlayServer/lib/raop_rtp_mirror.c:431-448 | In every run of a well-formed client, rewriting a frame never looks at a byte behind its buffer |
| MirrorSender.UsedOnce | include/AirPlayServer/lib/raop_rtp_mirror.c:412-422 | No SPS+PPS packet is prepended to two frames |
| MirrorSender.CodecFor | include/AirPlayServer/lib/raop_rtp_mirror.c:403-422 | The SPS+PPS in front of a frame comes from an earlier codec packet with the frame's own raw time stamp |
| MirrorSender.FrameStep | include/AirPlayServer/lib/raop_rtp_mirror.c:366-538 | A frame keeps the receiver in step with the client (keystream position, waiting SPS+PPS) and makes exactly one callback, with the expected bytes, unit count and time |
| MirrorSender.CodecStep | include/AirPlayServer/lib/raop_rtp_mirror.c:539-632 | A codec packet makes no callback and leaves exactly its SPS and PPS waiting, under its time stamp |
| MirrorSender.OtherStep | include/AirPlayServer/lib/raop_rtp_mirror.c:633-673 | Packets of other kinds change nothing |
| MirrorSender.CodecFields | include/AirPlayServer/lib/raop_rtp_mirror.c:569-572 | The receiver finds the SPS and PPS where the client put them, whatever stands around them |
| MirrorSender.HeaderFields | include/AirPlayServer/lib/raop_rtp_mirror.c:306-316 | Size, kind and time stamp are read back from a header as written |
| MirrorSender.WireParses | include/AirPlayServer/lib/raop_rtp_mirror.c:284-364 | The client's byte stream frames back into exactly its packets, with nothing left over |
| MirrorSender.ScanOfFrame | include/AirPlayServer/lib/raop_rtp_mirror.c:424-521 | Encrypting length-prefixed units and then decrypting and rewriting them gives the units behind start codes, valid, with the exact count |
| MirrorThreads.MirrorThread.ServeConnection | include/AirPlayServer/lib/raop_rtp_mirror.c:282-364 | Whatever the cuts and timeouts, the callbacks and the thread's state are those of parsing the received bytes at once; the thread ends exactly at a failure, or a close within a payload, and goes through timeouts; with enough pieces all bytes come (the model stops at a header that states 2^31 bytes or more) |
| MirrorThreads.MirrorThread.Poll | include/AirPlayServer/lib/raop_rtp_mirror.c:284-364 | One pass keeps received bytes, handled packets and the packet in progress in step, uses up the schedule, leaves the status that the events explain, and never falls behind a schedule that brings enough |
| MirrorThreads.MirrorThread.PollPayload | include/AirPlayServer/lib/raop_rtp_mirror.c:348-364 | The same for the payload half of a pass, which goes on after a timeout and ends the thread at a close or a failure |
| MirrorThreads.MirrorThread.Fill | include/AirPlayServer/lib/raop_rtp_mirror.c:285-290 | Either read loop appends exactly the bytes received, and stops short of a full buffer exactly when `recv` times out, closes or fails, telling which |
| MirrorThreads.MirrorThread.FinishPacket | include/AirPlayServer/lib/raop_rtp_mirror.c:676-679 | A complete packet is handled once, joins the handled bytes, and leaves the thread ready for the next header |
| MirrorThreads.MirrorThread.FramesAreParsed | include/AirPlayServer/lib/raop_rtp_mirror.c:284-364 | Handled bytes and pending bytes together parse into the handled packets and the pending rest |
| MirrorThreads.MirrorThread.HandlePacket | include/AirPlayServer/lib/raop_rtp_mirror.c:366-674 | The switch does to the thread's fields and callbacks what the packet means for the abstract state |
| MirrorThreads.MirrorThread.VideoPacket | include/AirPlayServer/lib/raop_rtp_mirror.c:403-538 | The in-place handling of a video packet gives the state and the callback its specification gives |
| MirrorThreads.MirrorThread.Decode | include/AirPlayServer/lib/raop_rtp_mirror.c:412-510 | The output buffer is the rewrite of SPS+PPS followed by the payload under the next keystream bytes, and the keystream moves by the payload's length |
| MirrorThreads.MirrorThread.TakePrefix | include/AirPlayServer/lib/raop_rtp_mirror.c:403-422 | A pending SPS+PPS of another time is dropped, one of this time is handed over and forgotten |
| MirrorThreads.MirrorThread.Deliver | include/AirPlayServer/lib/raop_rtp_mirror.c:511-537 | One callback unless H.265 was seen, first byte 1 exactly if invalid, two units more with SPS+PPS, and the flag cleared only with a callback |
| MirrorThreads.MirrorThread.CodecPacket | include/AirPlayServer/lib/raop_rtp_mirror.c:545-610 | A codec packet with a payload leaves its SPS+PPS pending; an empty one changes nothing |
| MirrorThreads.Connection.Recv | include/AirPlayServer/lib/raop_rtp_mirror.c:287-287 | What `recv` may do with each event: hand over the next bytes, as many as came, are wanted and are left; time out; report a close; or fail |
| MirrorThreads.OneMore | include/AirPlayServer/lib/raop_rtp_mirror.c:288-303 | One more event leaves a calm history calm, or ends it in a close or a failure, as the answer tells |
| MirrorProtocol.ParseAppend | include/AirPlayServer/lib/raop_rtp_mirror.c:284-364 | Bytes that come later change nothing about packets already complete, and parsing can resume from the rest |
| MirrorProtocol.ParseNext | include/AirPlayServer/lib/raop_rtp_mirror.c:306-354 | A header with a payload of its stated size is the next packet of any stream that goes on from it |
| MirrorProtocol.RestHeader | include/AirPlayServer/lib/raop_rtp_mirror.c:284-354 | A header left over in a cut stream is that of its next packet |
| MirrorProtocol.NextPacket | include/AirPlayServer/lib/raop_rtp_mirror.c:366-679 | In a stream that can be handled, the next complete packet can be, and the run goes on with its effect |
| MirrorProtocol.HandleNext | include/AirPlayServer/lib/raop_rtp_mirror.c:366-679 | A packet that can be handled extends any run by its effect |
| MirrorProtocol.PlayablePrefix | include/AirPlayServer/lib/raop_rtp_mirror.c:366-674 | A run over fewer packets makes the first of the callbacks of the run over more |
| MirrorProtocol.PendingIsHeld | include/AirPlayServer/lib/raop_rtp_mirror.c:412-413 | In every run without H.265 the asserted SPS+PPS is there whenever it is flagged |
| MirrorProtocol.NoFramesAfterH265 | include/AirPlayServer/lib/raop_rtp_mirror.c:511-516 | Once H.265 was seen in a run, no frame is handed over any more |
| MirrorProtocol.H265LeavesFlag | include/AirPlayServer/lib/raop_rtp_mirror.c:412-422 | One frame leaves the flag without the SPS+PPS if and only if it takes them and H.265 was seen, in this frame or before it |
| MirrorProtocol.OutcomeDependsExactly | include/AirPlayServer/lib/raop_rtp_mirror.c:424-521 | For a frame in any state: how its rewriting ends depends on the bytes behind the output buffer if and only if they decide |
| MirrorProtocol.FrameDependsExactly | include/AirPlayServer/lib/raop_rtp_mirror.c:403-537 | For a frame in any state: its callback or the thread's state depends on those bytes if and only if they decide and H.265 was not seen before |
| MirrorProtocol.SameFrame | include/AirPlayServer/lib/raop_rtp_mirror.c:403-537 | Otherwise callback and state are the same whatever lies behind |
| PendingCodec.EveryRunTells | include/AirPlayServer/lib/raop_rtp_mirror.c:403-422 | In every run: SPS+PPS are held if and only if no frame came after the last codec packet, and are then that packet's, under its time; the flag is set without them if and only if exactly one frame came after it, of its time, and H.265 was seen |
| PendingCodec.AssertionFailsExactly | include/AirPlayServer/lib/raop_rtp_mirror.c:413-413 | In every run the assertion on `sps_pps` fails on the next packet if and only if H.265 was seen and it is the second frame of the last codec packet's time, with no other frame in between |
| PendingCodec.FailureHappens | include/AirPlayServer/lib/raop_rtp_mirror.c:412-422 | A run from the start on which it fails: a codec packet, an H.265 frame, and a frame of that time that could be handled otherwise |
| PendingCodec.PrefixIsCodec | include/AirPlayServer/lib/raop_rtp_mirror.c:598-610 | In every run what is put in front of a frame starts with a start code |
| PendingCodec.FirstByteTells | include/AirPlayServer/lib/raop_rtp_mirror.c:517-521 | In every run, for a non-empty payload, the decoder can tell an invalid frame from a valid one by its first byte |
| MirrorProtocol.ValidStart | include/AirPlayServer/lib/raop_rtp_mirror.c:412-437 | A valid frame starts with a zero byte, the prefix's or that of its first start code |
| NalRewrite.Rewrite | include/AirPlayServer/lib/raop_rtp_mirror.c:428-517 | The loop that overwrites the buffer gives the memory, count and verdict of the scan, and remembers H.265 |
| NalRewrite.ScanLengthPrefixed | include/AirPlayServer/lib/raop_rtp_mirror.c:431-521 | For length-prefixed units of two bytes or more: valid if and only if every unit has first bit 0 and is not H.265, and then every prefix is a start code, every unit untouched, and the count exact |
| NalRewrite.IsH265Exactly | include/AirPlayServer/lib/raop_rtp_mirror.c:448-461 | The two bytes looked for are exactly the H.265 unit headers of types 1 and 20 in the base layer |
| NalRewrite.UnitsComeBack | include/AirPlayServer/lib/raop_rtp_mirror.c:437-437 | A decoder that looks for start codes finds exactly the units that were sent, if these are free of three zero bytes in a row and do not end in one (annex B and section 7.4.1 of ITU-T H.264) |
| NalRewrite.UnitsStayInside | include/AirPlayServer/lib/raop_rtp_mirror.c:431-448 | On length-prefixed units of two bytes or more the loop never looks behind the payload |
| NalRewrite.BehindIsIgnored | include/AirPlayServer/lib/raop_rtp_mirror.c:431-521 | Unless the bytes behind the payload decide, verdict, count and output are the same whatever lies there |
| NalRewrite.DecidesExactly | include/AirPlayServer/lib/raop_rtp_mirror.c:431-461 | The outcome depends on the bytes behind the payload if and only if some turn judges a unit by them: its length ends the payload, or its first byte does and may begin an H.265 unit |
| NalRewrite.BehindDecides | include/AirPlayServer/lib/raop_rtp_mirror.c:441-461 | Whenever they decide, some bytes make the payload H.265, and zeros do not |
| NalRewrite.DecidingLooks | include/AirPlayServer/lib/raop_rtp_mirror.c:431-448 | Where they decide the loop looks at them |
| NalRewrite.BehindMatters | include/AirPlayServer/lib/raop_rtp_mirror.c:441-441 | An instance: a lone length of zero is valid or not by the byte behind |
| NalRewrite.FirstTurn | include/AirPlayServer/lib/raop_rtp_mirror.c:431-461 | One turn of the loop passes exactly an H.264 unit, and moves to the next one |
| NalRewrite.ValidTiles | include/AirPlayServer/lib/raop_rtp_mirror.c:431-521 | Conversely, a run that ends valid had lengths that tile the payload exactly, and produced the start-code form of those units |
| NalRewrite.TileAt | include/AirPlayServer/lib/raop_rtp_mirror.c:432-438 | A tiling seen after one length was overwritten is one of the memory before, with one unit more in front |
| NalRewrite.ValidTurn | include/AirPlayServer/lib/raop_rtp_mirror.c:431-461 | Every turn of a run that ends valid had a length that fits into the payload, and a unit with first bit 0 |
| NalRewrite.PutStartCode | include/AirPlayServer/lib/raop_rtp_mirror.c:437-437 | Exactly four bytes become the start code |
| MirrorBuffers.MirrorBuffer.Decrypt | include/AirPlayServer/lib/mirror_buffer.c:85-115 | Every packet at least as long as the carried remainder is decrypted with the keystream bytes that follow those of the packet before, each output bit being set exactly where input and keystream differ; afterwards the carry buffer holds the next unused bytes and the cipher stands at a block boundary |
| MirrorBuffers.MirrorBuffer.DecryptHead | include/AirPlayServer/lib/mirror_buffer.c:87-99 | Carried bytes and whole blocks come out as one stretch of the keystream, whatever was decrypted in place |
| MirrorBuffers.MirrorBuffer.XorCarried | include/AirPlayServer/lib/mirror_buffer.c:87-91 | The head of a packet is decrypted with the bytes carried over |
| MirrorBuffers.MirrorBuffer.DecryptBlocks | include/AirPlayServer/lib/mirror_buffer.c:96-99 | The whole blocks are copied out decrypted, and the input behind them is as it came |
| MirrorBuffers.MirrorBuffer.DecryptRest | include/AirPlayServer/lib/mirror_buffer.c:102-114 | The last partial block comes out decrypted, and the unused part of its keystream block is carried over |
| MirrorBuffers.MirrorBuffer.DecryptBlock | include/AirPlayServer/lib/mirror_buffer.c:106-108 | A block padded with zeros yields plaintext in front and bare keystream behind |
| MirrorBuffers.MirrorBuffer.CarryCount | include/AirPlayServer/lib/mirror_buffer.c:113-113 | The carried count is what is missing to a whole block of everything decrypted so far |
| MirrorBuffers.CutsDoNotShow | include/AirPlayServer/lib/mirror_buffer.c:85-115 | For every split of a ciphertext, the outputs joined together are the whole ciphertext under the keystream |
| MirrorBuffers.DecryptSplit | include/AirPlayServer/lib/mirror_buffer.c:85-115 | The buffer itself, given the packets of any split that are each at least as long as the remainder carried into them, puts out the whole ciphertext, bit by bit exclusive-ored with the keystream from its start |
| MirrorBuffers.XorStreamTwice | include/AirPlayServer/lib/crypto.c:156-158 | Decrypting undoes encrypting at the same position |
| MirrorBuffers.XorStreamBits | include/AirPlayServer/lib/mirror_buffer.c:89-89 | Each bit of a decrypted byte is set exactly where ciphertext and keystream differ |
| Bytes.XorAt | include/AirPlayServer/lib/mirror_buffer.c:89-89 | Exclusive-or: each of the eight bits is set exactly where the two bytes differ |
| Bytes.ByteOfLE | include/AirPlayServer/lib/byteutils.c:65-67 | Byte i of a little-endian field has the weight 256^i |
| Bytes.ByteOfBE | include/AirPlayServer/lib/byteutils.c:72-88 | Byte i from the end of a big-endian field has the weight 256^i |
| Bytes.PatternsAreKept | include/AirPlayServer/lib/raop_rtp_mirror.c:432-432 | A field read as a signed number keeps its pattern, the highest bit being the sign |
| MirrorBuffers.ZerosGiveKeystream | include/AirPlayServer/lib/mirror_buffer.c:106-108 | Zero padding decrypts to the keystream itself, and leaves the bytes before it alone |
| MirrorBuffers.AesCtr.Encrypt | include/AirPlayServer/lib/crypto.c:84-94 | A call uses the next keystream bytes on exactly the given range |
| MirrorBuffers.AesCtr.CtrEncrypt | include/AirPlayServer/lib/crypto.c:145-148 | The same, and the block offset moves along |
| MirrorBuffers.AesCtr.CtrDecrypt | include/AirPlayServer/lib/crypto.c:156-158 | The same without the block offset, which only encryption keeps |
| MirrorBuffers.AesCtr.StartFreshBlock | include/AirPlayServer/lib/crypto.c:150-154 | The rest of a begun block is burnt, by the offset that encryption has kept |
| AudioRuns.Play | include/AirPlayServer/lib/raop_buffer.c:167-312 | In any run of arrivals, deliveries and flushes, what was delivered since the last restart has strictly increasing unbounded numbers, each with the payload the client encoded for that number; what was taken in was delivered, thrown away, or is held |
| AudioRuns.DatagramFields | include/AirPlayServer/lib/raop_buffer.c:172-186 | A client's RTP packet is taken for audio, with its number and its payload |
| AudioRuns.TakenWereSent | include/AirPlayServer/lib/raop_buffer.c:207-214 | What the buffer holds or delivered is always one of the packets that arrived |
| Reorder.EveryRunIsGood | include/AirPlayServer/lib/raop_buffer.c:167-312 | In every run, through any number of wraps: numbers handed over strictly increase, one packet per number, none overwritten, taken in = handed over + thrown away + held |
| Reorder.ArriveKeepsGood | include/AirPlayServer/lib/raop_buffer.c:190-227 | An arrival never replaces a packet and never takes in a number for the second time |
| Reorder.DeliverKeepsGood | include/AirPlayServer/lib/raop_buffer.c:235-270 | A delivery keeps the order and hands over only what was taken in |
| Reorder.FlushKeepsGood | include/AirPlayServer/lib/raop_buffer.c:295-312 | A flush accounts for everything it throws away |
| Reorder.FreshStart | include/AirPlayServer/lib/raop_buffer.c:195-223 | After a first packet, or one at 32 or more beyond the window's start, nothing else is held, no request is pending, and the very next delivery hands it over, with resends or without |
| Reorder.RunStartsAnew | include/AirPlayServer/lib/raop_buffer.c:195-271 | The same in any run: the delivered sequence grows by exactly that packet |
| Reorder.WindowFills | include/AirPlayServer/lib/raop_buffer.c:190-226 | Arrivals inside the window are all held, in whatever order and however often, each by its first copy |
| Reorder.AnyOrderComesOut | include/AirPlayServer/lib/raop_rtp.c:682-713 | Packets that come in any order within the window of the first are handed over in the order of their numbers, without a gap, by one round of draining |
| Reorder.FlushGoesOn | include/AirPlayServer/lib/raop_buffer.c:295-312 | After a flush to a number, exactly that number is the next to be handed over, and earlier ones are late; after one without, the buffer is as good as new |
| Reorder.DrainIsGapless | include/AirPlayServer/lib/raop_rtp.c:682-713 | One round of draining hands over a gapless run of numbers from the first one, keeps everything behind it, and skips one number exactly if resends are off or the window is full |
| Reorder.ResendIsExact | include/AirPlayServer/lib/raop_buffer.c:277-292 | On a started buffer a request is made if and only if the first packet is missing and a later one is there; it covers exactly the missing ones before the first present, from 1 to 31 |
| Reorder.ResendOfStaleWindow | include/AirPlayServer/lib/raop_buffer.c:277-292 | On a buffer that is not started the request covers the stale window but its last number |
| Reorder.StaleWindowIsAskedFor | include/AirPlayServer/lib/raop_buffer.c:277-292 | Such a request happens: two packets with a gap, a restart, and the first two numbers are asked for |
| RaopBuffers.RaopBuffer.Enqueue | include/AirPlayServer/lib/raop_buffer.c:167-228 | Ring and wrapping numbers do what the unbounded window does: -1 for a bad length, 0 for markers, late packets and copies, else the decoded packet is held under its number; a first packet, or one beyond the window, is then the only one held, and the window starts at it; a payload is allocated exactly on 1 |
| RaopBuffers.RaopBuffer.Place | include/AirPlayServer/lib/raop_buffer.c:190-205 | A filled slot that is met is always a copy, never another live packet; late packets are told from early ones across wraps |
| RaopBuffers.RaopBuffer.Store | include/AirPlayServer/lib/raop_buffer.c:207-226 | Filling a free slot moves the 16-bit bounds as the unbounded window moves |
| RaopBuffers.RaopBuffer.DecryptPayload | include/AirPlayServer/lib/raop_buffer.c:131-138 | A payload is decoded on its own: the chain is back at the initial vector afterwards |
| RaopBuffers.RaopBuffer.Dequeue | include/AirPlayServer/lib/raop_buffer.c:231-271 | The first packet is handed over, waited for, or given up, as the unbounded window says; its memory goes to the caller exactly when it is handed over |
| RaopBuffers.RaopBuffer.DequeueAll | include/AirPlayServer/lib/raop_rtp.c:682-713 | The thread's loop hands over exactly the packets of one round of draining |
| RaopBuffers.RaopBuffer.HandleResends | include/AirPlayServer/lib/raop_buffer.c:273-293 | The scan over slots finds the request the unbounded window calls for, and makes none otherwise |
| RaopBuffers.RaopBuffer.Flush | include/AirPlayServer/lib/raop_buffer.c:295-312 | Every payload is freed once; the window restarts, or goes on at the given number |
| RaopBuffers.RaopBuffer.LoopNumber | include/AirPlayServer/lib/raop_buffer.c:281-282 | The `int` counter of the scan still names the right number and slot after it passes 65535 |
| RaopBuffers.SeqnumCmpIsDistance | include/AirPlayServer/lib/raop_buffer.c:110-114 | Numbers less than half the space apart compare as the unbounded ones do (section 3.2 of RFC 1982) |
| RaopBuffers.SlotsOfWindow | include/AirPlayServer/lib/raop_buffer.c:201-201 | The 32 numbers of a window never share a slot |
| RaopBuffers.CbcUndoes | include/AirPlayServer/lib/crypto.c:179-182 | Cipher-block-chaining decryption undoes encryption from the same chaining block |
| RaopBuffers.BlockOfCbc | include/AirPlayServer/lib/crypto.c:179-182 | Each plaintext block is, bit by bit, the deciphered block exclusive-or the ciphertext block before it or the initial vector (section 6.2 of NIST SP 800-38A) |
| RaopBuffers.DecodeEncode | include/AirPlayServer/lib/raop_buffer.c:131-137 | Each packet decodes to what the client encoded, whatever its length |
| RaopBuffers.DecodeParts | include/AirPlayServer/lib/raop_buffer.c:131-137 | All but the last up to 15 bytes of a payload go through the cipher, and those are copied |
| RaopBuffers.IsAudioExactly | include/AirPlayServer/lib/raop_buffer.c:172-179 | Of packets of 12 to 32768 bytes exactly those whose payload is the four-byte marker are not audio |
| RaopBuffers.AesCbc.Decrypt | include/AirPlayServer/lib/crypto.c:179-182 | The block loop writes the chained decryption and nothing behind it |
| RaopBuffers.AesCbc.Reset | include/AirPlayServer/lib/crypto.c:184-186 | The chain starts over at the initial vector |
| Srp.SecretsAgree | include/AirPlayServer/lib/srp.c:850-853 | For all exponents, multipliers and moduli, the server's secret equals the client's, with B reduced or not (section 2.6 of RFC 5054) |
| Srp.ServerSecretIsPower | include/AirPlayServer/lib/srp.c:850-853 | The server's secret is g to the power (a + ux)b |
| Srp.ClientSecretIsPower | include/AirPlayServer/lib/srp.c:1136-1142 | The client's secret is the same power, although its base B - k g^x may be negative |
| Srp.ClientBaseIsPower | include/AirPlayServer/lib/srp.c:1139-1141 | The client's base is congruent to g^b |
| Srp.InputsFit | include/AirPlayServer/lib/srp.c:410-430 | The padded hash of the compatible variant never refuses what the two sides exchange |
| Srp.HashPairReads | include/AirPlayServer/lib/srp.c:410-430 | The compatible hash is taken of exactly two halves of the length of N, which are the two numbers (section 2.6 of RFC 5054) |
| Srp.HashPairTellsApart | include/AirPlayServer/lib/srp.c:424-427 | Under a hash without collisions it tells any two pairs of numbers apart |
| Srp.OriginalHashMixesUp | include/AirPlayServer/lib/srp.c:394-408 | The original one, unpadded, does not, under any hash |
| Srp.ServerPublicReads | include/AirPlayServer/lib/srp.c:824-829 | B is k v + g^b modulo N, with k the hash of N and the padded g |
| Srp.ServerSecretReads | include/AirPlayServer/lib/srp.c:850-853 | S is (A v^u)^b modulo N |
| Srp.ServerProofsRead | include/AirPlayServer/lib/srp.c:838-861 | The server's proofs are those of that secret, with u the hash of the padded A and B |
| Srp.SessionKeyReads | include/AirPlayServer/lib/srp.c:490-517 | The session key is two hashes, of the secret followed by a 32-bit counter of 0 and of 1 |
| Srp.PrivateXReads | include/AirPlayServer/lib/srp.c:432-461 | x is the hash of the salt and of the hash of name, colon and password |
| Srp.ProofReads | include/AirPlayServer/lib/srp.c:520-554 | The proof is the hash of H(N) exclusive-or H(g), H(user), salt, A, B and key, in this order |
| Srp.AnswerReads | include/AirPlayServer/lib/srp.c:556-572 | The answer is the hash of A, the proof and the key |
| ModArith.PowOne | include/AirPlayServer/lib/srp.c:652-652 | With the law of sums, powers are what they should be and nothing else |
| Srp.ProofsAgree | include/AirPlayServer/lib/srp.c:838-861 | With the right password the client's proof, answer and key are the server's, exactly if neither B nor u is zero |
| Srp.BinRoundTrip | include/AirPlayServer/lib/srp.c:863-875 | Numbers survive the way through big-endian bytes without leading zeros |
| Pairing.PairWithHonestClient | include/AirPlayServer/lib/pairing.c:308-399 | For every PIN, salt and key pair: step one succeeds exactly on full-length salt and verifier; then step two accepts the client's proof, the client accepts the answer, and both have one session key, exactly if the client sees no zero B or u |
| Pairing.HonestProofs | include/AirPlayServer/lib/srp.c:812-861 | The B recomputed in step two is the B sent in step one, and the proofs of both sides are the same |
| Pairing.FirstBReads | include/AirPlayServer/lib/srp.c:710-726 | The public key of step one is k v + g^b modulo N, with k the hash of N and the padded g |
| Pairing.Session.NewUser | include/AirPlayServer/lib/pairing.c:308-361 | -1 exactly for a long name, 0 exactly for a full-length salt and verifier, -3 else; on 0 the public key is k v + g^b modulo N with the padded hash as k, and the session keeps what step two needs |
| Pairing.Session.ValidateProof | include/AirPlayServer/lib/pairing.c:363-399 | A null pointer is read exactly without session data (before step one, or after a wrong proof) or with a client key that does not fit; otherwise success exactly on the expected proof, with answer and session key handed out, and else the session is emptied and the proof buffer untouched |
| Pairing.VerifierExistsExactly | include/AirPlayServer/lib/srp.c:798-848 | A verifier exists if and only if the client key is not zero modulo N and has no more bytes than N |
| Pairing.KeysThatDoNotFit | include/AirPlayServer/lib/srp.c:423-424 | An instance of each: a multiple of N, and a longer key that is none |
| Pairing.SRPVerifier.New | include/AirPlayServer/lib/srp.c:743-897 | A verifier exists exactly if A is not zero modulo N and the hashes exist, and then holds B, the proof to expect, the answer, and the key |
| Pairing.SRPVerifier.VerifySession | include/AirPlayServer/lib/srp.c:942-951 | Authenticated, with an answer, exactly on the expected proof |
| Pairing.LengthsFit | include/AirPlayServer/lib/pairing.c:391-394 | The key always has the length the session wants, so -2 is never returned |
| NtpTime.RoundTripInEra | include/AirPlayServer/lib/byteutils.c:107-126 | Before the end of the era, put then get gives the time back, short of one nanosecond exactly if its sub-second part is no multiple of 1953125 |
| NtpTime.RoundTripExactly | include/AirPlayServer/lib/byteutils.c:107-126 | For all 64-bit times: it comes back, at most a nanosecond short, if and only if it lies before the end of the era |
| NtpTime.RoundTripByParts | include/AirPlayServer/lib/byteutils.c:107-126 | For all 64-bit times: what comes back is the time modulo the 32-bit seconds, in 64-bit arithmetic, short of at most one nanosecond |
| NtpTime.FractionRoundTrip | include/AirPlayServer/lib/byteutils.c:121-121 | A sub-second part loses a nanosecond on the way to a binary fraction and back exactly if it is no multiple of 1953125 |
| NtpTime.DecodersAgree | include/AirPlayServer/lib/raop_ntp.c:478-489 | The decoder of a 64-bit number and the decoder of eight bytes agree on every field |
| NtpTime.PutNtpTimestamp | include/AirPlayServer/lib/byteutils.c:117-126 | Exactly the eight bytes of the field are written |
| NtpTime.FieldIsFixedPoint | include/AirPlayServer/lib/byteutils.c:117-126 | The field as a number is the time since 1900 in units of 2^-32 seconds, rounded down, in 64 bits |
| NtpTime.DecodedIsFixedPoint | include/AirPlayServer/lib/raop_ntp.c:478-482 | Without the epoch, decoding gives that number in nanoseconds, rounded down, with no overflow |
| ClockFilter.Synchronise | include/AirPlayServer/lib/raop_ntp.c:289-369 | Over any run of exchanges with a constant true offset, twice the error of the chosen offset is at most the measured delay of each of the last eight exchanges and one, although all three time stamps have lost up to a nanosecond in their fields; and three instead of one if a way there took no time at all |
| ClockFilter.SampleError | include/AirPlayServer/lib/raop_ntp.c:322-346 | The same bound for one sample, and its delay against the true time under way |
| ClockFilter.HalfIsTruncated | include/AirPlayServer/lib/raop_ntp.c:345-345 | The offset is halved toward zero on both sides |
| ClockFilter.RaopNtp.OnResponse | include/AirPlayServer/lib/raop_ntp.c:343-369 | The ring keeps the last eight samples; the offset is that of one with the shortest delay in it, the delay the longest in it |
| ClockFilter.RaopNtp.FirstIsShortest | include/AirPlayServer/lib/raop_ntp.c:350-355 | First and last of the sorted copy bound the delays of the last eight samples |
| ClockFilter.QSort | include/AirPlayServer/lib/raop_ntp.c:351-351 | The copy is sorted by delay and holds the same samples |
| ClockFilter.NoOverflow | include/AirPlayServer/lib/raop_ntp.c:345-346 | For local times before the end of the era and any remote times no difference in offset or delay leaves 64 bits |
| ClockFilter.RemoteTimesInRange | include/AirPlayServer/lib/raop_ntp.c:484-489 | Whatever the client sends, under either time protocol, its times are in the range that takes; under NTP they end with the era |
| RtpClocks.RtpClock.Rtp64Time | include/AirPlayServer/lib/raop_rtp.c:420-442 | The low half of the clock is always the last time stamp, which is the assertion the source has commented out; the start time is set once |
| RtpClocks.StepIsFollowed | include/AirPlayServer/lib/raop_rtp.c:428-434 | A step of the true time by half the 32-bit range forward, or less than half back, is followed exactly |
| RtpClocks.StepIsFollowedExactly | include/AirPlayServer/lib/raop_rtp.c:428-434 | Among all steps below 2^62, exactly those of half the 32-bit range forward at most, or less than half of it back, are followed |
| RtpClocks.ClockIsTrueTime | include/AirPlayServer/lib/raop_rtp.c:420-442 | Through any number of wraps and reorderings the clock is the true unbounded time at a constant distance |
| RtpClocks.ClockIsTrueExactly | include/AirPlayServer/lib/raop_rtp.c:420-442 | A whole run shows the true time after every stamp if and only if every step is of that size |
| RtpClocks.ClockIsAhead | include/AirPlayServer/lib/raop_rtp.c:420-442 | From a first stamp below 2^32 the clock is the true time and 2^32, as long as that fits into 64 bits |
| RtpClocks.HalfBackIsMisread | include/AirPlayServer/lib/raop_rtp.c:428-434 | Where the bound is first missed: half the range back is read as half the range forward |
| RtpClocks.LowHalf | include/AirPlayServer/lib/raop_rtp.c:440-440 | Either way round ends on the time stamp, also where the 64-bit clock wraps |
| Lifecycle.EveryRunKeepsInv | include/AirPlayServer/lib/raop_ntp.c:409-469 | The joint state of flags, workers, stop calls and joins keeps its invariant under every interleaving |
| Lifecycle.WorkersAreExclusive | include/AirPlayServer/lib/httpd.c:429-523 | At most one worker alive; a new one only after every earlier one returned and was joined; none joined twice; only the newest ever clears the flag |
| Lifecycle.StartAddsOne | include/AirPlayServer/lib/raop_ntp.c:409-432 | A start call adds exactly one looping, unjoined worker, or changes nothing |
| Lifecycle.StopTakesHold | include/AirPlayServer/lib/raop_ntp.c:442-448 | In every run with the flag set, a stop call clears it and is the only one under way |
| Lifecycle.StopGoesOn | include/AirPlayServer/lib/raop_ntp.c:277-283 | While a stop call is under way, a step that brings its end nearer is always enabled: there is no deadlock |
| Lifecycle.StopIsNotPutOff | include/AirPlayServer/lib/raop_ntp.c:442-468 | And no step of anyone makes it longer |
| Lifecycle.RestartWorks | include/AirPlayServer/lib/raop_ntp.c:409-469 | From every run with a looping worker: stop, the worker's end, join and start are enabled in turn, and leave that worker joined once and a new one looping |
| Lifecycle.SelfExitOrphans | include/AirPlayServer/lib/raop_ntp.c:384-387 | A worker that clears the flag on its own leaves a state with no flag, no stop call, and no join |
| Lifecycle.OrphanedForever | include/AirPlayServer/lib/raop_ntp.c:409-446 | From that state no calls in any order start a worker or join the last one |
| Lifecycle.OrphanedExactly | include/AirPlayServer/lib/raop_ntp.c:384-387 | In every run: the flags are stuck (nothing runs, nothing is being stopped, nothing was joined) if and only if some worker cleared a flag that no stop call had cleared |
| Lifecycle.SelfExitHappens | include/AirPlayServer/lib/raop_ntp.c:313-316 | The shortest such run: start, leave the loop, clear the flag; the next start call creates nothing |
| Lifecycle.StartableExactly | include/AirPlayServer/lib/raop_ntp.c:409-413 | In every run a start call creates a worker if and only if none runs, no stop call is under way, and no worker has ever ended on its own |
| Connections.Httpd.Admit | include/AirPlayServer/lib/raop.c:173-194 | 409 exactly if the requester is new, another client is connected and there is no take-over; otherwise the requester is the client, and on a take-over every other client is closed |
| Connections.Httpd.HandleReadable | include/AirPlayServer/lib/httpd.c:326-403 | By what was read: a closed or malformed connection frees its slot, a partial request changes nothing, and a request leaves its own slot with its connection, now the only client unless it was turned down or asked to disconnect |
| Connections.Httpd.Accept | include/AirPlayServer/lib/httpd.c:306-325 | Behind the guard an accept fails exactly if the connection object cannot be made, so the branch for a full table is dead; on success the first free slot is filled and the count goes up, else nothing changes |
| Connections.Httpd.AddConnection | include/AirPlayServer/lib/httpd.c:153-182 | The first free slot is filled and no other changes; failure exactly on a full table or a missing object, and then nothing changes |
| Connections.Httpd.RemoveConnection | include/AirPlayServer/lib/httpd.c:137-151 | One slot becomes free, and the open count follows |
| Connections.Httpd.RemoveKnownConnections | include/AirPlayServer/lib/httpd.c:231-240 | Exactly the clients are closed |
| Connections.Httpd.SetConnectionType | include/AirPlayServer/lib/httpd.c:60-73 | Exactly the first slot of that object changes its type; -1 exactly if there is none |
| Connections.Httpd.CountConnectionType | include/AirPlayServer/lib/httpd.c:75-88 | The exact number of connections of that type, which for clients is never above one |
| TextSerializer.HeadParses | src/default/prometheus/text_serializer.cpp:61-90 | A parser recovers the name with its suffix and every label from a printed head, whatever characters the values hold and whatever follows |
| TextSerializer.HeadsAreDistinct | src/default/prometheus/text_serializer.cpp:61-90 | Heads of which one starts the other are of the same name and labels |
| TextSerializer.ParseValueOf | src/default/prometheus/text_serializer.cpp:36-59 | Escaping loses nothing and never closes the quote early |
| TextSerializer.PlainIsPrintedAsIs | src/default/prometheus/text_serializer.cpp:54-56 | A value without newline, backslash and quote is printed unchanged |
| TextSerializer.ParseLabelsOf | src/default/prometheus/text_serializer.cpp:74-87 | A printed label list parses back to the list, in order |
| TextSerializer.ExtraComesLast | src/default/prometheus/text_serializer.cpp:74-86 | The extra label, if there is one, is printed behind the others |
| TextSerializer.WriteHead | src/default/prometheus/text_serializer.cpp:61-90 | The loop with its changing separator appends exactly the head that parses back |
| TextSerializer.WriteValue | src/default/prometheus/text_serializer.cpp:36-59 | The character loop appends exactly the escaped value |
| TextSerializer.NamesMatchExactly | src/default/prometheus/check_names.cpp:43-98 | The accepted names are those of the documented regular expressions, except what begins with two underscores, and `le` and `quantile` where they are reserved |
| Families.SeriesAreDistinct | src/default/prometheus/family.cpp:127-143 | In every state of a family, two lines with the same head have the same label set, the same suffix, and the same printed extra label |
| Families.BucketsShareHead | src/default/prometheus/text_serializer.cpp:166-180 | For any way to print numbers: two bucket lines share a head if and only if they have the same label set and their boundaries print the same |
| Families.QuantilesShareHead | src/default/prometheus/text_serializer.cpp:138-143 | The same for quantile lines |
| Families.BucketsAreDistinctExactly | src/default/prometheus/text_serializer.cpp:166-180 | All buckets of one histogram have heads of their own if and only if its boundaries all print differently, and none like infinity |
| Families.CloseBucketsShareHead | src/default/prometheus/text_serializer.cpp:246-246 | With 16 digits they need not: the double nearest to 0.1 and the next one above it are boundaries whose buckets share a head |
| Families.NoLabelTwice | src/default/prometheus/family.cpp:49-62 | No printed line names a label twice, nor comes in conflict with `le` or `quantile` |
| Families.NamesAreNameChars | src/default/prometheus/check_names.cpp:51-98 | Every name on every line of a family is of the characters the parser takes for a name |
| Families.Family.Add | src/default/prometheus/family.cpp:39-68 | A set already there is found, a good one is added, a bad one throws on its first bad label and leaves the family as it was |
| Families.Family.New | src/default/prometheus/family.cpp:20-36 | A family exists exactly if its name and all constant label names pass |
| Families.Family.CollectLabels | src/default/prometheus/family.cpp:127-143 | The printed labels are the constant ones and then the metric's |
| Histograms.Histogram.Collect | src/default/prometheus/histogram.cpp:88-110 | Each bucket shows the naive count of values up to its boundary since the last reset, the last one the total, and counts never decrease |
| Histograms.Histogram.Observe | src/default/prometheus/histogram.cpp:47-57 | One more value is in the count of exactly the bucket it belongs to |
| Histograms.Histogram.Reset | src/default/prometheus/histogram.cpp:78-86 | Afterwards nothing counts as observed |
| Histograms.Histogram.New | src/default/prometheus/histogram.cpp:18-45 | Comparing neighbours accepts exactly the boundaries that strictly increase throughout |
| Histograms.LowerBound | src/default/prometheus/histogram.cpp:49-52 | Bisection finds the first boundary not below the value |
| Histograms.CountsAfter | src/default/prometheus/histogram.cpp:49-56 | One more value raises the naive count of the bucket that bisection finds, and of no other |
| Histograms.CountInIsDifference | src/default/prometheus/histogram.cpp:95-98 | A bucket's own count is the difference of the naive counts at its two ends |

## Left out

- Sockets, `select`, `accept`, socket options, logging, property lists, and what the callbacks do: input and output. `recv` is a schedule of results over one byte stream.
- AES, SHA-1 and big-number internals: functions given from outside, with the assumptions named above. The primality of the modulus is not needed.
- Failing allocations, and `malloc(0)` returning a null pointer: allocation always succeeds. A dequeued audio payload of no bytes is therefore told from no payload.
- MirrorSender.Receive: covers one connection. After a close within a header the thread waits for another client and keeps its state; that reconnection is not modelled.
- MirrorThreads.MirrorThread.ServeConnection: requires that every complete packet of the stream can be handled (`MirrorProtocol.Playable`): its payload is below 2^31 bytes and, for video, not shorter than the carried keystream; its SPS and PPS lie inside it; and neither the assertion on `sps_pps` nor an overflow of the signed `nalu_size` is met. Outside of this the C program aborts or leaves its buffers. At a header that states 2^31 bytes or more the model stops. The C program fails to allocate a negative size and goes on with a null payload, in which it may even drop a packet of another kind and read on.
- MirrorThreads.MirrorThread.CodecPacket: requires that the stated lengths fit into the packet. The source reads past the packet otherwise, and what it then copies is not modelled.
- MirrorBuffers.MirrorBuffer.Decrypt: requires a packet at least as long as the carried remainder. On a shorter one the source writes past its output and forgets the rest of the remainder.
- MirrorThreads.MirrorThread.Deliver: the callback's remote and local times are functions of the raw time stamp and the clock offset, and only the raw time stamp is kept. The calls of `video_resume`, `video_pause` and `video_report_size` are not modelled.
- NalRewrite.Rewrite: the signed overflow of `nalu_size` is an outcome of its own, and the two bytes behind the buffer are an input; a length field that lies partly outside is not read, because the source rejects it whatever it reads.
- Reorder.EveryRunIsGood: flushes to a given number go beyond everything buffered, as the one in `raop_buffer_enqueue` does; `RaopBuffers.RaopBuffer.Flush` itself takes any number.
- RaopBuffers.RaopBuffer.Enqueue: the unbounded number of a packet is less than 2^15 away from the first one of a started buffer, beyond which 16 bits cannot tell ahead from behind.
- Pairing.Session.ValidateProof: reading a null pointer is an outcome, after which nothing is modelled. The proof buffer has at least 20 bytes, and of what is written to it the answer's 20 bytes are modelled, not what is copied from behind them.
- ClockFilter.RaopNtp.OnResponse: the dispersion is not modelled, its units and weights promise nothing that could be stated.
- ClockFilter.Synchronise: the client's clock is exact to the nanosecond but for its fields; delays are below the placeholder of 16 * 2^32 nanoseconds, and sending times before the end of the era.
- Lifecycle.WorkersAreExclusive: a start call that fails to open its sockets, which leaves both flags as they are, is not a step of its own. What the sections do besides the flags, and the condition variable that wakes the NTP worker, are left out.
- Connections.Httpd.HandleReadable: the parsing of HTTP is an input (closed, malformed, partial, complete). The thread closes all connections by `RemoveConnection` when it ends.
- Connections.Httpd.Accept: a failing `accept` or `getsockname` adds nothing and is not modelled.
- Families.SeriesAreDistinct: how a number is printed is a parameter, of which `Families.CloseBucketsShareHead` assumes only that 16 digits decide it.
- Families.Family.Add: a `std::map` of labels is its sequence in key order. `Remove`, which only takes a label set out, is left out, and so is the mutex.
- Histograms.Histogram.Observe: values are real numbers, without infinities, NaN, rounding, or the 53-bit limit of a counter. `ObserveMultiple` is left out.
- RTP clock synchronisation and volume, `playfair`, HTTP parsing, time-window quantiles, the registry, and all device drivers of the repository: floating point without an exact specification, opaque tables, or easy members.
