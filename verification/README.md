# mediastreamer2 in Dafny

A model of the parts of mediastreamer2 that compute something: the RTP payload formats of H.264 and
H.265 (packing, unpacking, loss detection, Annex B byte streams), the 4:2:0 picture generator, checker
and strided copy, the NEON inner product kernels, the fixed-point macros, the log-to-graph and hex dump
tools, the benchmark's session lifecycle, the end-of-file monitor, the codec matrix, the DirectShow
sample allocator and the address parsers.

Code that updates things in place is modelled by classes, arrays and loops, each proved against a
function of its inputs or of the old state; the theorems are then about those functions. Where the code
does not meet a property for all inputs, the property is stated as an equivalence with the condition
under which it holds.

`dafny verify dfyconfig.toml` verifies the project.

## Layout

- `Bytes`, `Arithmetic`: bytes, size fields, sequences, 32-bit wrap-around, nonlinear facts.
- `NalPacking`, `NalUnpacking`, `NalRoundTrip`, `NalDelivery`, `NalLoss`: H.264 over RTP. `Plan` decides which NAL
  units travel together, `WireAll` what the payloads are, `Stamped` the RTP envelopes; `Step` is one call
  of the unpacker, `Deliver` a run of it.
- `NalByteStream`: the byte stream format with start codes and prevention bytes.
- `H265Packets`, `H265Packing`, `H265RoundTrip`: H.265 headers, fragmentation units, aggregation packets,
  the packing loop run with them, and the unpacker.
- `YuvLayout`, `YuvPicture`, `YuvCopy`: picture layouts, generator and checker, strided copy.
- `InnerProduct`, `FixedPoint`: kernels and macros with their rounding and overflow bounds.
- `FilterGraphLog`, `FilterGraphDot`, `HexDump`, `AddressParser`: the tools.
- `BenchSessions`, `EofMonitor`, `CodecsManager`, `SampleAllocator`: stateful protocols.

## Where the code falls short of what it is for

- The FU-A aggregator masks the NAL unit type with 0x17 instead of 0x1f: a fragmented NAL unit whose type
  has bit 3 set (a picture parameter set, type 8, for instance) comes back with another type
  (`NalRoundTrip.PayloadsRoundTrip`, `NalRoundTrip.OversizedParameterSet`).
- A NAL unit of type 24 or 28 handed to the packer is taken for an aggregate or a fragment. The unpacker then
  reads past its payload when the second header byte of a fragment or the second byte of a size field is not
  there (`NalDelivery.Transfer`, `NalDelivery.OverreadExample`).
- A frame that ends without marker is reported corrupted when the sequence number wraps exactly there,
  although nothing is missing (`NalLoss.MarkerlessFrame`).
- When a frame's end is lost, the next frame is reported corrupted although it is complete, and a next
  frame of a single packet is announced together with the stump (`NalLoss.UnfinishedFrame`).
- `isKeyFrame` is never set, so parameter sets given out of band are never sent
  (`NalDelivery.OutOfBandSetsUnused`).
- Removing prevention bytes turns 0,0,3,1 into 0,0,1,1 and not, as the comment says, into 0,0,1
  (`NalByteStream.PreventionByteNotUndone`).
- Writing a byte stream runs past the buffer when it ends inside the start code of a NAL unit other than
  the first (`NalByteStream.NalusToByteStream`, `NalByteStream.OverrunExample`).
- An H.265 aggregation packet lacks the size field of its first NAL unit, which section 4.4.2 of RFC 7798
  asks for and the splitter expects (`H265Packets.AggregatesNeverReturn`, `H265RoundTrip.RoundTripIff`).
- The H.265 splitter accepts a packet cut off right behind a size field (`H265Packets.AcceptedIff`).
- The H.265 aggregator keeps the message of a NAL unit that did not fit, and the packing loop then uses it
  again: it is chained into itself, queued twice or freed while still held, except in one case
  (`H265Packing.PackAggregated`, `H265Packing.ReusedExamples`).
- When an H.265 start fragment arrives while another NAL unit is under construction, the NAL unit loses
  its header (`H265Packets.FragmentsRoundTrip`).
- The block shortcut of `plane_copy` moves `row_stride * h` bytes from the region's corner and overruns
  the V plane when the region is away from the left edge and touches the bottom
  (`YuvCopy.PlaneInBounds`, `YuvCopy.OverreachExample`).
- The kernels wrap around on large samples (`InnerProduct.BoundIsSharp`, `InnerProduct.HalvesAccurateIff`). They are kept as reference code
  under `#if 0`; the repository's inner product test calls the library's own `inner_prod`.
- A refused `SetProperties` leaves what the base class granted in place, and the next `Alloc` cuts that
  many samples out of the application's buffer (`SampleAllocator.InPin.Run`, `SampleAllocator.RefusedRun`).
- `include_hexdump` writes two commas in a row, or a leading one, when the file length is a multiple of
  twelve (`HexDump.InitializerIff`).
- `parse_addr` does not terminate the local host name; it relies on a zeroed buffer
  (`AddressParser.BarePort`). `parse_ice_addr` writes the terminator one past `type_len` when the type is
  that long (`AddressParser.ParseIceAddr`, `AddressParser.TypeOverrunExample`).
- A run of link lines that reaches the end of the log is dropped (`FilterGraphLog.LinksConserved`).
- `wait_for_neof` with a refresh time that is not positive can poll without end (`EofMonitor.BoundedIff`).

## Model

| member | source | states |
|---|---|---|
| `NalPacking.NalHeader` | src/videofilters/h26x/h264-utils.h:200-202 | a forged header reads back as the same type and nri, with the forbidden bit cleared |
| `NalPacking.PlanConserves` | src/videofilters/h26x/nal-packer.cpp:63-111 | grouping drops, duplicates and reorders no NAL unit, for every configuration and every sequence |
| `NalPacking.PlanIsGreedy` | src/videofilters/h26x/nal-packer.cpp:79-111 | an aggregate, or a NAL unit small enough to open one, is closed only because the next NAL unit did not fit; only oversized NAL units are fragmented |
| `NalPacking.PayloadsFit` | src/videofilters/h26x/nal-packer.cpp:74-119 | in non-interleaved mode no payload exceeds the maximum, whatever the NAL unit sizes |
| `NalPacking.SingleModeFits` | src/videofilters/h26x/nal-packer.cpp:63-72 | in single NAL unit mode the maximum is kept if and only if every NAL unit fits |
| `NalPacking.StapGrows` | src/videofilters/h26x/h264-nal-packer.cpp:61-86 | extending a finished aggregate by one NAL unit gives the aggregate of the longer sequence, also when the first NAL unit itself has type 24 |
| `NalPacking.StapHeader` | src/videofilters/h26x/h264-nal-packer.cpp:61-86 | an aggregate starts with type 24 and the nri of its first NAL unit |
| `NalPacking.FragmentCount` | src/videofilters/h26x/h264-nal-packer.cpp:92-112 | a NAL unit of n bytes makes ceil(n/(max-2)) fragments |
| `NalPacking.FragmentAt` | src/videofilters/h26x/h264-nal-packer.cpp:92-112 | the k-th fragment byte by byte: indicator, flags and type, and the k-th piece; every fragment but the last is full |
| `NalPacking.WireCount` | src/videofilters/h26x/nal-packer.cpp:79-119 | the number of packets of a plan: one per group, ceil(n/(max-2)) for a fragmented NAL unit |
| `NalPacking.H264NalPacker.CompleteAggregation` | src/videofilters/h26x/h264-nal-packer.cpp:54-59 | hands out the aggregate and leaves the aggregator empty |
| `NalPacking.H264NalPacker.AggregatorFeed` | src/videofilters/h26x/h264-nal-packer.cpp:33-47 | a NAL unit is taken in exactly when it fits; otherwise the finished aggregate comes out and the NAL unit stays outside |
| `NalPacking.H264NalPacker.SplitterFeed` | src/videofilters/h26x/h264-nal-packer.cpp:92-112 | the queue grows by exactly the FU-A packets of the NAL unit, whose number and bytes are those of `FragmentCount` and `FragmentAt` |
| `NalPacking.H264NalPacker.SendPacket` | src/videofilters/h26x/nal-packer.cpp:121-126 | one packet with the given timestamp and marker and the next sequence number modulo 2^16 |
| `NalPacking.H264NalPacker.FragNaluAndSend` | src/videofilters/h26x/nal-packer.cpp:113-119 | all fragments are sent in order with consecutive numbers, the marker on the last only, and the fragment queue ends empty |
| `NalPacking.H264NalPacker.PackInSingleNalUnitMode` | src/videofilters/h26x/nal-packer.cpp:63-72 | every NAL unit is one payload, in order, the marker on the last |
| `NalPacking.H264NalPacker.AggregateOrSend` | src/videofilters/h26x/nal-packer.cpp:79-96 | one turn of the loop: which groups go out and what is left under construction, by sizes alone |
| `NalPacking.H264NalPacker.PackInNonInterleavedMode` | src/videofilters/h26x/nal-packer.cpp:74-111 | the whole loop sends exactly the planned groups and leaves nothing pending |
| `NalPacking.H264NalPacker.Pack` | src/videofilters/h26x/nal-packer.cpp:46-55 | one call puts exactly the planned payloads on the queue, numbered on from the previous call, the marker on the last packet; their number follows from the sizes alone |
| `NalUnpacking.H264NalUnpacker.FuaFeed` | src/videofilters/h26x/h264-nal-unpacker.cpp:32-76 | effect of one FU-A packet on the NAL unit under construction and what is released |
| `NalUnpacking.H264NalUnpacker.StapaFeed` | src/videofilters/h26x/h264-nal-unpacker.cpp:95-113 | the entries of an aggregate up to the first one that does not fit; a size field is read past the end exactly when the scan meets a single last byte |
| `NalUnpacking.H264NalUnpacker.OutputFrame` | src/videofilters/h26x/h264-nal-unpacker.cpp:147-156 | the stored NAL units come out in order behind any prepended parameter sets, flags are merged, the state is reset |
| `NalUnpacking.KeyFramePrepends` | src/videofilters/h26x/h264-nal-unpacker.cpp:147-156 | for a key frame with both parameter sets known these come first, in the order SPS, PPS, and are forgotten |
| `NalUnpacking.H264NalUnpacker.SetOutOfBandSpsPps` | src/videofilters/h26x/h264-nal-unpacker.cpp:127-132 | replaces the out-of-band parameter sets and nothing else |
| `NalUnpacking.H264NalUnpacker.CheckTimestamp` | src/videofilters/h26x/nal-unpacker.cpp:56-72 | a new timestamp releases a frame without marker unless a fragment is pending |
| `NalUnpacking.H264NalUnpacker.CheckSequence` | src/videofilters/h26x/nal-unpacker.cpp:76-86 | the expected number modulo 2^16; any other marks the frame corrupted |
| `NalUnpacking.H264NalUnpacker.StorePayload` | src/videofilters/h26x/nal-unpacker.cpp:88-114 | single NAL unit, fragment or aggregate, by payload type; the source reads past the payload exactly when a header byte or the second byte of a size field is missing |
| `NalUnpacking.H264NalUnpacker.Unpack` | src/videofilters/h26x/nal-unpacker.cpp:49-125 | one call is one step of the assembler (new state, output and returned status), unless the source reads past the payload, which has its exact condition |
| `NalRoundTrip.RebuiltSame` | src/videofilters/h26x/h264-nal-unpacker.cpp:39-59 | the header rebuilt from fragments is the original one if and only if the forbidden bit and bit 3 of the type are zero |
| `NalRoundTrip.FragAbsorbed` | src/videofilters/h26x/h264-nal-packer.cpp:92-112 | for every oversized NAL unit and payload limit, its fragments rebuild one NAL unit with all its bytes behind the header |
| `NalRoundTrip.HeadlessDropped` | src/videofilters/h26x/h264-nal-unpacker.cpp:60-76 | without the start fragment every later fragment of a NAL unit is dropped |
| `NalRoundTrip.StartLost` | src/videofilters/h26x/h264-nal-unpacker.cpp:60-76 | so the fragments of an oversized NAL unit without the first one leave no trace |
| `NalRoundTrip.SingleAbandons` | src/videofilters/h26x/nal-unpacker.cpp:88-94 | a single NAL unit is stored and abandons a fragment under construction |
| `NalRoundTrip.CutAggregate` | src/videofilters/h26x/h264-nal-unpacker.cpp:95-113 | an aggregate that is cut off gives the entries before the cut and nothing of the cut one |
| `NalRoundTrip.SplitEntries` | src/videofilters/h26x/h264-nal-unpacker.cpp:95-113 | splitting inverts aggregating if and only if every size fits its 16-bit field |
| `NalRoundTrip.GroupsWeight` | src/videofilters/h26x/nal-unpacker.cpp:88-114 | the unpacker never stores more than was sent, and strictly less as soon as one group is misread |
| `NalRoundTrip.PayloadsRoundTrip` | src/videofilters/h26x/nal-packer.cpp:46-119 | for every NAL unit sequence and configuration, the stored NAL units are the packed ones if and only if every planned group is faithful, a condition on sizes and header bytes |
| `NalRoundTrip.OversizedParameterSet` | src/videofilters/h26x/h264-nal-unpacker.cpp:39-42 | a picture parameter set larger than a payload comes back with type 0 |
| `NalDelivery.FrameDelivered` | src/videofilters/h26x/nal-unpacker.cpp:49-125 | packets of one frame yield exactly one frame, on the last packet, reported corrupted exactly when a sequence number was out of turn |
| `NalDelivery.FrameRoundTrip` | src/videofilters/h26x/nal-unpacker.cpp:49-125 | one packed frame is announced once, uncorrupted, equal to what was packed if and only if the plan is faithful, and the unpacker is ready for the next frame |
| `NalDelivery.StreamRoundTrip` | src/videofilters/h26x/nal-packer.cpp:121-126 | any number of frames across any number of sequence number wraps is delivered in order, none reported corrupted, if and only if every plan is faithful |
| `NalDelivery.OutOfBandSetsUnused` | src/videofilters/h26x/h264-nal-unpacker.cpp:127-156 | over every run no frame is a key frame and the out-of-band parameter sets stay where they are |
| `NalLoss.LossReported` | src/videofilters/h26x/nal-unpacker.cpp:76-86 | losing packets i..j of a frame, not its last: the frame is made of the other payloads, and reported corrupted if and only if the number lost is not a multiple of 2^16 and a packet had been seen before |
| `NalLoss.LostStartDelivered` | src/videofilters/h26x/h264-nal-unpacker.cpp:60-76 | a frame whose fragmented NAL unit lost its first packet comes out without any byte of that NAL unit, with all others, and is reported corrupted unless it was the first packet ever |
| `NalLoss.UnfinishedFrame` | src/videofilters/h26x/nal-unpacker.cpp:56-125 | for every frame that misses its end, every number of packets lost and every next frame, with the same timestamp or another: exactly which frames are announced, with which NAL units and flags |
| `NalLoss.TailLossReported` | src/videofilters/h26x/nal-unpacker.cpp:56-125 | losing a frame's last packets before a faithful frame: the stump comes out first, or in one frame with a next frame of one packet, or inside the next frame when the timestamp is the same or a fragment is pending; the next frame is reported corrupted, although complete, unless the number lost is a multiple of 2^16 |
| `NalLoss.MarkerlessFrame` | src/videofilters/h26x/nal-unpacker.cpp:56-72 | a whole frame without marker, followed without loss by a frame of several packets, is reported corrupted exactly when the number wraps behind it |
| `NalDelivery.Receive` | src/videofilters/h26x/nal-unpacker.cpp:49-125 | feeding packets one by one to the unpacker object is a run of the assembler, up to the first payload it reads past |
| `NalDelivery.FaithfulPlanSendable` | src/videofilters/h26x/h264-nal-unpacker.cpp:95-113 | no payload of a faithful plan is read past |
| `NalDelivery.GroupsReadable` | src/videofilters/h26x/h264-nal-unpacker.cpp:32-113 | the payloads of a plan are read past if and only if it holds a NAL unit sent alone that is taken for a cut fragment or a cut aggregate, or an aggregate whose scan leaves one byte |
| `NalDelivery.OverreadExample` | src/videofilters/h26x/h264-nal-unpacker.cpp:97-99 | a NAL unit of two bytes that is read past |
| `NalDelivery.Transfer` | src/videofilters/h26x/nal-packer.cpp:46-55 | packer and unpacker objects together: a read past a payload if and only if the plan holds an unsendable group, and never for a faithful plan; otherwise one frame in, the same frame out if and only if the plan is faithful, and both stay in step |
| `NalByteStream.WriteNalu` | src/videofilters/h26x/h26x-utils.cpp:132-146 | the escaped NAL unit is written after `start`, nothing before it changes, and it succeeds exactly when room remains |
| `NalByteStream.NalusToByteStream` | src/videofilters/h26x/h26x-utils.cpp:113-149 | the buffer holds the picture's byte stream if and only if a byte is left over; a write past the end happens if and only if the buffer ends inside the start code of a later NAL unit; otherwise the source throws |
| `NalByteStream.OverrunExample` | src/videofilters/h26x/h26x-utils.cpp:127-130 | two one-byte NAL units overrun a buffer of six bytes |
| `NalByteStream.MakeNalu` | src/videofilters/h26x/h26x-utils.cpp:62-82 | prevention bytes are rewritten as the code does it |
| `NalByteStream.ByteStreamToNalus` | src/videofilters/h26x/h26x-utils.cpp:84-111 | the stream is cut at its start codes, or refused without a picture start code |
| `NalByteStream.RefusedIff` | src/videofilters/h26x/h26x-utils.cpp:56-60 | a stream is refused if and only if it has fewer than five bytes or does not begin with 0,0,0,1 |
| `NalByteStream.EscapeHidesCodes` | src/videofilters/h26x/h26x-utils.cpp:132-144 | an escaped NAL unit contains no start code |
| `NalByteStream.StripEscape` | src/videofilters/h26x/h26x-utils.cpp:132-144 | dropping the prevention bytes as the standard does gives the NAL unit back, so escaping adds nothing else |
| `NalByteStream.StreamRoundTrip` | src/videofilters/h26x/h26x-utils.cpp:84-149 | parsing what was written gives the NAL units back if and only if none needs a prevention byte or looks as if it had one, and none is empty except a first one that is not alone |
| `NalByteStream.PreventionByteNotUndone` | src/videofilters/h26x/h26x-utils.cpp:70-76 | a NAL unit with a start code comes back one byte longer |
| `H265Packets.HeaderRoundTrip` | src/videofilters/h26x/h265-utils.cpp:58-83 | forging a parsed header loses no bit |
| `H265Packets.HeaderBits` | src/videofilters/h26x/h265-utils.cpp:58-67 | where the four fields stand in the two bytes |
| `H265Packets.ForgeParse` | src/videofilters/h26x/h265-utils.cpp:58-83 | parsing a forged header gives all four fields back |
| `H265Packets.SplitterFeed` | src/videofilters/h26x/h265-nal-packer.cpp:92-129 | the fragments of an oversized NAL unit, none for one that fits |
| `H265Packets.FragmentCount265` | src/videofilters/h26x/h265-nal-packer.cpp:92-129 | a NAL unit of n bytes makes ceil((n-2)/(max-3)) fragments |
| `H265Packets.FragmentAt265` | src/videofilters/h26x/h265-nal-packer.cpp:92-129 | the k-th fragment byte by byte; every fragment but the last is full |
| `H265Packets.FuAggregator.Feed` | src/videofilters/h26x/h265-nal-unpacker.cpp:29-77 | effect of one fragment, including the refusal of contradictory flags |
| `H265Packets.FragmentsRoundTrip` | src/videofilters/h26x/h265-nal-unpacker.cpp:29-64 | every fragmented NAL unit, of any type, comes back if the aggregator was idle, and without its header otherwise |
| `H265Packets.StartLost265` | src/videofilters/h26x/h265-nal-unpacker.cpp:29-64 | the fragments of a NAL unit without the first one are dropped |
| `H265Packets.OddFragments` | src/videofilters/h26x/h265-nal-unpacker.cpp:29-45 | a payload below three bytes is ignored; one is refused if and only if both flags are set |
| `H265Packets.NaluAggregator.CompleteAggregation` | src/videofilters/h26x/h265-nal-packer.cpp:51-65 | the packet of the NAL units taken in, within the maximum size when there are two or more |
| `H265Packets.NaluAggregator.Aggregate` | src/videofilters/h26x/h265-nal-packer.cpp:74-90 | takes one more NAL unit in; header fields are combined over all of them, to the least of `ApHeaderLeast` |
| `H265Packets.ApHeaderLeast` | src/videofilters/h26x/h265-nal-packer.cpp:74-90 | the temporal and layer ids of an aggregation packet are the least of its NAL units, and its forbidden bit is set if and only if that of one of them is |
| `H265Packets.PacketHeader` | src/videofilters/h26x/h265-nal-packer.cpp:51-65 | the first two bytes of the packet are that header with type 48 |
| `H265Packets.NaluAggregator.Feed` | src/videofilters/h26x/h265-nal-packer.cpp:31-45 | a NAL unit that does not fit completes the packet and starts the next one |
| `H265Packets.ApSpliterFeed` | src/videofilters/h26x/h265-nal-unpacker.cpp:79-109 | the entries of a packet, or none when the scan does not stop at its end |
| `H265Packets.AcceptedIff` | src/videofilters/h26x/h265-nal-unpacker.cpp:89-106 | a packet is accepted if and only if it consists of entries that fill it, possibly followed by two bytes of a size field without its NAL unit |
| `H265Packets.AcceptedShape` | src/videofilters/h26x/h265-nal-unpacker.cpp:89-106 | the NAL units taken out of an accepted packet are the entries it consists of |
| `H265Packets.TruncationUnnoticed` | src/videofilters/h26x/h265-nal-unpacker.cpp:89-106 | a truncated packet that is accepted |
| `H265Packets.AggregatesNeverReturn` | src/videofilters/h26x/h265-nal-packer.cpp:51-90 | no aggregate of two or more NAL units is split back into them |
| `H265Packing.FeedHeld` | src/videofilters/h26x/h265-nal-packer.cpp:31-90 | feeding the message that the aggregator holds already corrupts memory if and only if two copies fit a packet or its type is 48 |
| `H265Packing.PackOne` | src/videofilters/h26x/nal-packer.cpp:79-96 | one turn of the packing loop with the H.265 aggregator: exactly when it corrupts memory, otherwise what is sent and what stays under construction |
| `H265Packing.PackAggregated` | src/videofilters/h26x/nal-packer.cpp:74-111 | the loop corrupts memory if and only if the message of an overflowing NAL unit is reused, a condition on sizes and types; otherwise it sends exactly the planned parcels, they hold the NAL units as they came, and nothing stays pending |
| `H265Packing.Kept` | src/videofilters/h26x/nal-packer.cpp:79-96 | a clean plan drops, duplicates and reorders no NAL unit |
| `H265Packing.PlanIsGreedy` | src/videofilters/h26x/nal-packer.cpp:79-111 | in a clean plan an aggregate ends only where the next NAL unit did not fit, and only NAL units too large to open one travel outside |
| `H265Packing.PayloadsFit` | src/videofilters/h26x/nal-packer.cpp:74-119 | no payload of a clean plan exceeds the maximum size |
| `H265Packing.ReusedExamples` | src/videofilters/h26x/nal-packer.cpp:79-96 | sizes for which a message is chained into itself, queued while held, and freed while held |
| `H265RoundTrip.StorePayload` | src/videofilters/h26x/nal-unpacker.cpp:88-114 | the payload switch with the H.265 aggregator and splitter; a header is read past the payload exactly when there are fewer than two bytes |
| `H265RoundTrip.OversizedTaken` | src/videofilters/h26x/h265-nal-unpacker.cpp:29-77 | the fragments of a NAL unit add it to what is stored, without its header when the aggregator was busy |
| `H265RoundTrip.AllWeight` | src/videofilters/h26x/nal-unpacker.cpp:88-114 | the unpacker never stores more than was sent, and strictly less as soon as one parcel does not return |
| `H265RoundTrip.RoundTripIff` | src/videofilters/h26x/nal-packer.cpp:74-111 | the NAL units of every clean plan come back from the unpacker if and only if no two were aggregated and none was sent whole with type 48 or 49 |
| `H265RoundTrip.PairLost` | src/videofilters/h26x/h265-nal-packer.cpp:74-90 | two small NAL units that fit one packet never come back |
| `YuvLayout.LocateAddr` | tester/mediastreamer2_framework_tester.c:412-454 | in both layouts the stride tables map distinct samples to distinct bytes of the buffer, with a computable inverse |
| `YuvLayout.AddrLocate` | tester/mediastreamer2_framework_tester.c:412-454 | every byte of the buffer is the address of a sample |
| `YuvLayout.AddrInjective` | tester/mediastreamer2_framework_tester.c:412-454 | two samples at one address are one sample |
| `YuvPicture.PixIsValidIff` | tester/mediastreamer2_framework_tester.c:69-105 | the checker accepts one value for each type and index; it is the generated one unless the type is invalid and the index not divisible by 32 |
| `YuvPicture.MakePlane` | tester/mediastreamer2_framework_tester.c:107-122 | the moving pointer writes the region's values at their row-major places and leaves all else zero |
| `YuvPicture.MakeInterleavePlane` | tester/mediastreamer2_framework_tester.c:139-155 | the same for two types in alternating bytes |
| `YuvPicture.GeneratePicture` | tester/mediastreamer2_framework_tester.c:174-200 | every sample of the picture, named by the stride tables, has its expected value; the bytes of the region hold the values of their row and column at the addresses written out |
| `YuvPicture.CheckPlane` | tester/mediastreamer2_framework_tester.c:124-137 | true if and only if every pixel of the region has the accepted value of its index, for every type |
| `YuvPicture.CheckInterleavePlane` | tester/mediastreamer2_framework_tester.c:157-172 | the same for interleaved planes |
| `YuvPicture.PointerAddr` | tester/mediastreamer2_framework_tester.c:124-172 | the moving pointer visits the addresses of the stride tables |
| `YuvPicture.CheckPicture` | tester/mediastreamer2_framework_tester.c:202-217 | true if and only if every region sample of all three planes has its expected value, that is, if those bytes hold those values at the addresses written out; no other byte matters |
| `YuvPicture.AcceptsPlain` | tester/mediastreamer2_framework_tester.c:174-217 | acceptance in plain arithmetic: 64 + i % 32, 128 + i % 32 and 192 + i % 32 for pixel i of a region, at row and column addresses of full and half size, planar and semi-planar |
| `YuvPicture.GeneratedAccepted` | tester/mediastreamer2_framework_tester.c:174-217 | every generated picture is accepted at its own region, in both layouts |
| `YuvPicture.GeneratedZeroOutside` | tester/mediastreamer2_framework_tester.c:174-200 | a byte is zero if and only if it belongs to no sample of the region |
| `YuvPicture.ZeroElsewhere` | tester/mediastreamer2_framework_tester.c:174-200 | a byte at none of those addresses is zero |
| `YuvCopy.RowCopy` | src/voip/msvideo.c:188-202 | both branches copy the row's pixels and touch nothing else |
| `YuvCopy.PlaneCopy` | src/voip/msvideo.c:204-227 | both branches copy the region; only the region changes, or the whole block in the shortcut |
| `YuvCopy.PlaneInBounds` | src/voip/msvideo.c:213-219 | a plane copy stays inside both buffers if and only if it is not the overreaching block copy of the V plane |
| `YuvCopy.YuvBufCopyWithPixStrides` | src/voip/msvideo.c:245-270 | all three planes are copied, each region byte from the address to the address written out, and none spoils another, although a block copy overlaps the next plane; the copy leaves the buffers if and only if it overreaches |
| `YuvCopy.CopiedPlain` | src/voip/msvideo.c:245-270 | the copied samples in plain row and column addresses of full and half size |
| `YuvCopy.OverreachExample` | src/voip/msvideo.c:216-218 | a 4 by 4 picture whose block copy ends one byte past the buffer |
| `YuvCopy.CopyAccepted` | tester/mediastreamer2_framework_tester.c:456-459 | a copied region is accepted at its new place whenever it was accepted at the old one, for any pair of layouts |
| `YuvCopy.CopyTest` | tester/mediastreamer2_framework_tester.c:401-459 | generate, check, copy, check succeeds for every even buffer, every two regions of one shape and every pair of layouts, if and only if the copy stays inside the buffers |
| `YuvCopy.CopyTestBase` | tester/mediastreamer2_framework_tester.c:393-463 | both assertions of the repository's test hold, for every even size and with or without sliding |
| `InnerProduct.InnerProductXcode` | tester/mediastreamer2_neon_tester.c:51-86 | for every input, the shifted wrapped inner product of the longest prefix of whole steps |
| `InnerProduct.InnerProductXcodeOptim` | tester/mediastreamer2_neon_tester.c:88-113 | two shifted halves of the four wrapped lane sums |
| `InnerProduct.InnerProductXcodeOptim8` | tester/mediastreamer2_neon_tester.c:115-142 | the same over steps of eight |
| `InnerProduct.InnerProductXcodeOptim16` | tester/mediastreamer2_neon_tester.c:144-177 | the same over steps of sixteen with two accumulators |
| `InnerProduct.InnerProductIntrinsics` | tester/mediastreamer2_neon_tester.c:179-200 | the same as the eight-wide kernel |
| `InnerProduct.LanesMakeDot` | tester/mediastreamer2_neon_tester.c:60-78 | the four lanes together hold the inner product |
| `InnerProduct.LaneIsColumn` | tester/mediastreamer2_neon_tester.c:60-78 | a lane holds the products of one index modulo four, and each of two accumulators eight of every sixteen |
| `InnerProduct.HalvesByIndex` | tester/mediastreamer2_neon_tester.c:105-111 | which indices are added before and which after the shift, for every input |
| `InnerProduct.SixteenByIndex` | tester/mediastreamer2_neon_tester.c:144-177 | the same for the sixteen-wide kernel |
| `InnerProduct.LanesExact` | tester/mediastreamer2_neon_tester.c:51-142 | no lane wraps while (len/4)*M*M stays below 2^31 |
| `InnerProduct.HalfLanesExact` | tester/mediastreamer2_neon_tester.c:144-177 | no lane of the sixteen-wide kernel wraps while (len/8)*M*M stays below 2^31 |
| `InnerProduct.HalvesAccurateIff` | tester/mediastreamer2_neon_tester.c:105-111 | for every input, kernels that shift two halves return floor(S/64) or one less if and only if the wrapped lanes still add up to S |
| `InnerProduct.HalvesAccurate` | tester/mediastreamer2_neon_tester.c:105-111 | in particular when no lane wraps |
| `InnerProduct.SixteenAccurateIff` | tester/mediastreamer2_neon_tester.c:167-174 | the same equivalence for the eight lanes of the sixteen-wide kernel |
| `InnerProduct.SixteenAccurate` | tester/mediastreamer2_neon_tester.c:167-174 | in particular under its own wider bound |
| `InnerProduct.SixteenSameAsNarrow` | tester/mediastreamer2_neon_tester.c:144-177 | splitting each lane in two does not change the result |
| `InnerProduct.SingleShiftExactIff` | tester/mediastreamer2_neon_tester.c:68-86 | the single-shift kernel returns floor(S/64) if and only if S fits in 32 bits |
| `InnerProduct.CompareKernels` | tester/mediastreamer2_neon_tester.c:51-200 | on multiples of sixteen the four double-shift kernels agree exactly and the single-shift kernel differs by at most one |
| `InnerProduct.BoundIsSharp` | tester/mediastreamer2_neon_tester.c:60-66 | for samples that all equal m, no lane wraps if and only if (len/4)*m*m stays below 2^31 |
| `InnerProduct.LargeSamplesWrap` | tester/mediastreamer2_neon_tester.c:88-113 | sixty-four samples of 16383 make a kernel return -32768 |
| `FixedPoint.SplitExactIff` | include/mediastreamer2/dsptools.h:98-109 | the split multiplication is floor(a*b/2^k) if and only if the high part of b fits in 16 bits or a is zero |
| `FixedPoint.SplitFits` | include/mediastreamer2/dsptools.h:98-109 | no intermediate value overflows 32 bits |
| `FixedPoint.RoundedExactIff` | include/mediastreamer2/dsptools.h:108 | the rounding variant is the rounded exact product, under the same condition |
| `FixedPoint.RoundedFits` | include/mediastreamer2/dsptools.h:108 | no intermediate value of the rounding variant overflows 32 bits |
| `FixedPoint.HalvesExact` | include/mediastreamer2/dsptools.h:125 | the variant on two halves is the exact floor for all 16-bit halves, and the split multiplication on the halves of b |
| `FixedPoint.TruncationError` | include/mediastreamer2/dsptools.h:113 | truncating accumulation never overshoots and loses at most 2^13-1 scaled units a tap |
| `FixedPoint.RoundingError` | include/mediastreamer2/dsptools.h:114 | rounding accumulation stays within 2^12 scaled units a tap |
| `FixedPoint.AccumulatorFits` | include/mediastreamer2/dsptools.h:113-114 | up to 16383 taps cannot overflow the accumulator, truncating or rounding, whatever the samples |
| `FilterGraphLog.ScanOne` | tools/filters_graph.py:40-55 | what one line does to graphs, clusters and links |
| `FilterGraphLog.Scan` | tools/filters_graph.py:35-57 | the scanner yields, for every log, the closed runs of link lines of each piece between unlink lines |
| `FilterGraphLog.LinksConserved` | tools/filters_graph.py:35-57 | flattening all graphs gives all link lines in order except the run that reaches the end of the file |
| `FilterGraphLog.ClustersAreMaximalRuns` | tools/filters_graph.py:48-55 | each cluster is a maximal run of consecutive link lines, hence not empty |
| `FilterGraphLog.UnlinkSeparates` | tools/filters_graph.py:40-47 | no graph spans an unlink line |
| `FilterGraphLog.OneGraphPerPiece` | tools/filters_graph.py:40-47 | between unlink lines there is one graph, or none without a closed run |
| `FilterGraphDot.WriteNodes` | tools/filters_graph.py:84-93 | the dictionary and the declarations agree: each new address gets the next number |
| `FilterGraphDot.WriteEdges` | tools/filters_graph.py:95-96 | one edge per link between the numbers of its addresses |
| `FilterGraphDot.WriteClusters` | tools/filters_graph.py:70-100 | the clusters of a graph in order, boxed when there are several, and the running node number |
| `FilterGraphDot.WriteDot` | tools/filters_graph.py:59-105 | the whole file |
| `FilterGraphDot.DotNumbers` | tools/filters_graph.py:67-93 | for every graphs value the node numbers of the file are 1..n, each declared once, in increasing order |
| `FilterGraphDot.DotHeadings` | tools/filters_graph.py:67-103 | one box per graph, numbered from 1, and in a graph of several clusters one box per cluster, numbered from 1 again; none in a graph of one cluster |
| `FilterGraphDot.SameNodeIffSameAddress` | tools/filters_graph.py:84-93 | two endpoints of a cluster share a node if and only if they share an address |
| `FilterGraphDot.DeclareDistinct` | tools/filters_graph.py:86-92 | no address is declared twice in a cluster |
| `FilterGraphDot.NodesAreFirsts` | tools/filters_graph.py:84-93 | every node carries the name under which its address is met first |
| `FilterGraphDot.EdgeNamesItsNodes` | tools/filters_graph.py:95-96 | every edge joins two nodes declared in its own cluster that carry its link's addresses |
| `FilterGraphDot.DotBalanced` | tools/filters_graph.py:59-105 | braces are balanced and never close before they open |
| `HexDump.Hexdump` | tools/xxd.py:45-59 | the read loop prints sixteen bytes a line with a running counter |
| `HexDump.LineRoundTrip` | tools/xxd.py:45-49 | a line reads back as sixteen times its number and its bytes |
| `HexDump.DumpRoundTrip` | tools/xxd.py:51-59 | every file comes back from the 39-column fields of its dump, offsets consistent |
| `HexDump.OffsetDigits` | tools/xxd.py:45-49 | eight digits for every offset below 2^32, and no leading zero beyond |
| `HexDump.LineLayout` | tools/xxd.py:45-49 | the column of every part of a line: colon, digits of each byte, character of each byte, a dot for all but 32..126 |
| `HexDump.LineBlanks` | tools/xxd.py:45-49 | a short line is filled up with blanks |
| `HexDump.IncludeHexdump` | tools/xxd.py:27-43 | the whole text: array name, braces, and lines of twelve bytes |
| `HexDump.VarNameAt` | tools/xxd.py:35-36 | the array is named after the file, character by character, dots and dashes replaced by underscores |
| `HexDump.LineTextAt` | tools/xxd.py:27-33 | a line is indented by two blanks, takes six columns a byte, and has a comma at its end exactly when it has twelve |
| `HexDump.InitializerTokens` | tools/xxd.py:27-43 | the text between the braces reads as the bytes of the lines with their commas, a comma and a zero byte |
| `HexDump.InitializerIff` | tools/xxd.py:27-43 | it is an initializer for the file plus a zero byte if and only if the length is not a multiple of twelve |
| `BenchSessions.AppendSession` | tools/bench.c:251-273 | listing one more session adds exactly its filters, links and sources |
| `BenchSessions.RemoveFirst` | tools/bench.c:279-298 | taking the first session out takes out exactly its own |
| `BenchSessions.ListedRuns` | tools/bench.c:251-262 | every listed session has its two chains of links, through the encoder unless the file is encoded, and both first filters attached |
| `BenchSessions.NothingElseRuns` | tools/bench.c:251-262 | every link and every attached filter belongs to such a chain |
| `BenchSessions.Bench.DestroyAll` | tools/bench.c:300-306 | each present filter of a session is destroyed once, under the precondition that none is linked or attached |
| `BenchSessions.Bench.CreateFilters` | tools/bench.c:138-145 | new filters, different from each other and from all live ones, one per successful creation |
| `BenchSessions.Bench.InitSession` | tools/bench.c:123-274 | one turn either lists a complete session or leaves live filters, links and attachments as they were |
| `BenchSessions.Bench.InitBench` | tools/bench.c:103-277 | the count is the number of sessions listed: the successes before the first failure; each listed session is linked from player to sender and from receiver to recorder, both first filters are attached, and nothing else is linked or attached |
| `BenchSessions.Bench.UninitBench` | tools/bench.c:279-314 | nothing stays alive, linked, attached or listed |
| `BenchSessions.RunBench` | tools/bench.c:103-314 | for every pattern of failures, setup and teardown destroy every filter ever created exactly once |
| `EofMonitor.StepInv` | tester/mediastreamer2_player_tester.c:60-87 | every atomic step keeps mutual exclusion, that a loaded counter is still current when it is stored, and the count of completed increments |
| `EofMonitor.RunInv` | tester/mediastreamer2_player_tester.c:60-87 | so does every interleaving, and the counter never goes back |
| `EofMonitor.WaiterReturns` | tester/mediastreamer2_player_tester.c:77-87 | the waiter never sleeps or returns owning the mutex, sleeps at most ceil(timeout/refresh) times, not at all without a positive timeout and target, and returns with the target reached or the time spent |
| `EofMonitor.TargetEndsWait` | tester/mediastreamer2_player_tester.c:77-87 | from any state of the invariant with the target reached, every run adds at most the sleep already decided on |
| `EofMonitor.AtMostOneMoreSleep` | tester/mediastreamer2_player_tester.c:77-87 | from any reachable state with the target reached, every run adds at most one sleep, and none if the waiter is yet to test |
| `EofMonitor.NoIncrementLost` | tester/mediastreamer2_player_tester.c:70-75 | although an increment is a load and a store, the counter is the number of callbacks once all have returned |
| `EofMonitor.UnlockedLoses` | tester/mediastreamer2_player_tester.c:72-74 | two callbacks past the lock at once lose an increment |
| `EofMonitor.SomeThreadMoves` | tester/mediastreamer2_player_tester.c:70-87 | no deadlock |
| `EofMonitor.RunsAreFinite` | tester/mediastreamer2_player_tester.c:70-87 | no run is longer than 4n + 4*ceil(timeout/refresh) + 3 steps |
| `EofMonitor.PollsWithoutEnd` | tester/mediastreamer2_player_tester.c:77-87 | with a refresh time that is not positive, and something to wait for, there are runs of any length from the start |
| `EofMonitor.BoundedIff` | tester/mediastreamer2_player_tester.c:70-87 | the runs are bounded if and only if refresh > 0, timeout <= 0 or target <= 0 |
| `CodecsManager.CodecsManager.constructor` | tester/mediastreamer2_video_stream_tester.c:76-92 | collects the enabled encoders and decoders of the format, in list order |
| `CodecsManager.OtherBitsKept` | tester/mediastreamer2_video_stream_tester.c:99-114 | switching the enabled bit sets that bit and keeps the other 31 |
| `CodecsManager.LowerCaseMatches` | tester/mediastreamer2_video_stream_tester.c:76-92 | formats are compared without case: every name matches its lower-case form |
| `CodecsManager.SameFormatIff` | tester/mediastreamer2_video_stream_tester.c:76-92 | two names are one format if and only if they are equal in lower case |
| `CodecsManager.CapitalsMatch` | tester/mediastreamer2_video_stream_tester.c:76-92 | "H264" and "h264" are one format, "H263" is another |
| `CodecsManager.CodecsManager.EnableAllCodecs` | tester/mediastreamer2_video_stream_tester.c:99-114 | sets or clears the enabled bit of one list, the other 31 bits and all other descriptors unchanged |
| `CodecsManager.CodecsManager.EnableOnlyOneCodec` | tester/mediastreamer2_video_stream_tester.c:116-121 | leaves exactly the given codec enabled in its category, collected or not, and the other 31 bits of every flag as they were; a descriptor of another category is untouched |
| `CodecsManager.CodecsManager.TestAllCombinations` | tester/mediastreamer2_video_stream_tester.c:123-138 | the test function runs once per pair with exactly that pair enabled and the other 31 bits of every flag as found, then all flags are restored |
| `CodecsManager.MatrixAt` | tester/mediastreamer2_video_stream_tester.c:123-135 | call i*n+j sees exactly encoder i and decoder j |
| `CodecsManager.MatrixLength` | tester/mediastreamer2_video_stream_tester.c:123-135 | one call per pair |
| `CodecsManager.RunMatrix` | tester/mediastreamer2_video_stream_tester.c:76-138 | collecting and testing over a list without duplicates leaves every descriptor as it was |
| `SampleAllocator.AlignedSizeLeast` | src/dxfilter.cpp:679-686 | the stride is the least multiple of the alignment that holds size and prefix |
| `SampleAllocator.UnalignedSize` | src/dxfilter.cpp:679-686 | without an alignment the stride is size plus prefix |
| `SampleAllocator.SamplesDisjoint` | src/dxfilter.cpp:700-719 | samples, prefixes included, never overlap |
| `SampleAllocator.SamplesPlaced` | src/dxfilter.cpp:700-719 | every sample follows its prefix, which stands at a multiple of the alignment from the start of the buffer; the first prefix is at the start |
| `SampleAllocator.Allocator.ReallyFree` | src/dxfilter.cpp:729-751 | ends with an empty list and a zero counter |
| `SampleAllocator.Allocator.Alloc` | src/dxfilter.cpp:656-723 | result codes of all paths; a reallocation leaves as many samples as required or as memory allows, cut from the application's buffer with the properties in force |
| `SampleAllocator.Allocator.SetProperties` | src/dxfilter.cpp:759-788 | accepts exactly the compatible requests and then takes over the application's properties |
| `SampleAllocator.InsideIff` | src/dxfilter.cpp:700-719 | samples lie inside a buffer if and only if the last one does |
| `SampleAllocator.InPin.SetDeliveryBuffer` | src/dxfilter.cpp:611-640 | accepts exactly one non-null buffer and makes a new allocator for it |
| `SampleAllocator.InPin.Run` | src/dxfilter.cpp:611-788 | over every run of calls the counter is the free list's length, no two samples overlap and each is placed behind its prefix; every sample lies inside the application's buffer if and only if the calls, folded into announced and granted properties and a sample count, say so |
| `SampleAllocator.NoneRefusedWithin` | src/dxfilter.cpp:759-788 | that is so when no request is refused |
| `SampleAllocator.RefusalRepaired` | src/dxfilter.cpp:759-788 | and also when a refused request is followed by an accepted one before the allocation |
| `SampleAllocator.RefusedRun` | src/dxfilter.cpp:759-788 | a run in which a refused request makes the next allocation leave the application's buffer |
| `AddressParser.StrtolDecimal` | tools/mediastream.c:1404-1405 | a printed port number is consumed whole and gives the number |
| `AddressParser.StrtolReads` | tools/mediastream.c:1404-1405 | the scan takes blanks, a sign and digits, stops at the first character that is no digit, and the sign decides the value |
| `AddressParser.StrtolStops` | tools/mediastream.c:1404-1405 | digits followed by anything else are read up to there |
| `AddressParser.ConsumedIff` | tools/mediastream.c:1404-1407 | a text is consumed whole if and only if it is blanks, an optional sign and digits up to its end |
| `AddressParser.ToIntIs` | tools/mediastream.c:1404-1405 | a number of int range keeps its value; beyond the range of a long it saturates before the conversion |
| `AddressParser.ParseAddr` | tools/mediastream.c:1386-1417 | host and port around the last colon after the first character, truncated to the buffer; or a bare port, accepted if and only if the argument is blanks, an optional sign and digits up to its end |
| `AddressParser.ParseIceAddr` | tools/mediastream.c:1419-1430 | type after the last colon, which is overwritten, and the rest parsed as an address; the terminator is written past the type buffer if and only if the buffer has exactly `type_len` characters and the type is at least that long |
| `AddressParser.TypeOverrunExample` | tools/mediastream.c:1425-1427 | an address that does so |
| `AddressParser.IceRoundTrip` | tools/mediastream.c:1386-1430 | host (colons allowed), port and type come back exactly from "host:port:type" |
| `AddressParser.BarePort` | tools/mediastream.c:1402-1409 | a bare port yields 127.0.0.1 if and only if the byte behind it was zero |

## Left out

- Buffer chains: messages are byte sequences; the splitter's use of the first block's length only, sharing
  of blocks and freeing are not modelled.
- H.264 packer: aggregator and splitter are part of one class; a maximum payload size below three bytes,
  where the splitter makes no progress or an unsigned subtraction wraps, is excluded by the type `Limit`.
- Changing the mode or the maximum payload size while a packer is in use, `flush` and `reset`.
- NalUnpacking.H264NalUnpacker.Unpack: promises nothing about the state once the source reads past a payload.
- H265Packing.PackAggregated: promises nothing once memory is corrupted. That pulling up a message frees the
  blocks chained behind its first one is a property of the message library, which is not part of this model.
  Envelopes, the mode without aggregation and the assembly of frames are those of H.264.
- Parameter set inserters, key frame indicators, codec filters and the bit reader and writer.
- `throw` in byte stream conversion is a result value; the parsed NAL units queued before it are not.
- Pictures with odd dimensions, regions outside the buffer and sizes whose byte count overflows an int.
- YuvCopy.YuvBufCopyWithPixStrides: promises nothing about the destination when the block copy leaves the
  buffer.
- Inner product kernels: loads are modelled on sequences, alignment and the speed comparison are not.
- FixedPoint: the floating-point half of the header, the Blackfin variants, saturation and division macros.
- FilterGraphLog.Scan: the two regular expressions; lines are classified beforehand as link, unlink or
  other.
- FilterGraphDot.WriteDot: label texts and layout attributes, the output file's name, and the image
  rendering.
- Reading of the file as text with an encoding in both dump formats: characters are bytes.
- Bench: RTP sessions (which neither failure nor teardown destroys), recording files, ticker and factory
  objects, and the process loop.
- EofMonitor: locking, unlocking, sleeping and each load or store are atomic steps; overflow of the 32-bit
  elapsed time is not modelled.
- CodecsManager.CodecsManager.TestAllCombinations: the test function only looks at flags; one that changes
  them is not covered.
- SampleAllocator: negative sizes, 32-bit overflow of the stride, locks, reference counts, an allocator still
  held by others after its replacement, and media types; base class calls are arguments.
- AddressParser: locale-dependent blanks in `strtol`, and buffers that overlap.
- AddressParser.ParseIceAddr: promises nothing more once the terminator of the type is written outside.
- SRTP, jitter buffers, bitrate control, echo cancellation, sockets, devices, codecs, user interfaces and
  build scripts.
