# prism capture pipeline — a Dafny model

prism taps HTTP traffic with a TC (traffic-control) classifier attached to an
interface's ingress and egress hooks. For every frame, the kernel probe decides
whether the frame may carry HTTP over TCP over IPv4. If so, it copies up to 4000
bytes into a `struct http_data_event` and submits that event to a BPF ring
buffer. It always lets the frame pass. In userspace, a read loop decodes each
4008-byte record little-endian (the probe writes its integers in host byte
order, assumed little-endian) and sends the event into a bounded dispatch
queue. A consumer then slices `Data[:DataLen]` for the HTTP parser.

This project models both halves and the boundary between them. All of it is
pure functions over byte sequences, plus three imperative methods: the probe's
bounded copy loop (`CopyPayload`), the step-by-step probe that calls it
(`CapturePackets`), and the reader's `for` loop (`RunReadLoop`).

| file | module | models |
|---|---|---|
| `common.dfy` | `Common` | `__u8`/`__u32` value types, an option type, `Min` |
| `little_endian.dfy` | `LittleEndian` | the 32-bit little-endian codec used by `binary.LittleEndian` |
| `probe.dfy` | `Probe` | `bpf/http/tc_http.c`: filter chain, length clamp, copy loop, return code, direction hooks |
| `record.dfy` | `Record` | the `http_data_event` wire layout and `binary.Read` decoding |
| `reader.dfy` | `Reader` | the read loop of `runRingBuf`/`runPerf` and the consumer's slice |
| `pipeline.dfy` | `Pipeline` | end-to-end properties from the probe to the consumer |

Oracles and parameters:
- The socket buffer is its already-linearised byte sequence.
- `heapOk` is the outcome of the per-CPU scratch lookup (`bpf_map_lookup_elem`).
- `reserve` is the outcome of `bpf_ringbuf_reserve`. `None` means the reservation
  failed. `Some(stale)` holds the reserved memory's previous contents, because the
  reservation is not zeroed and the probe writes only the first `data_len` data bytes.
- The reader is a finite list of `rd.Read()` outcomes: `Closed`, `IoErr`, or
  `Sample(raw)`. The dispatch queue is the ordered sequence of events sent into it.

Behaviour of the code worth noting:
- Decoding fails only on a sample shorter than 4008 bytes. Extra trailing
  bytes are ignored, and no field value is rejected.
- Before reserving, the probe looks up a per-CPU scratch event. That lookup can make
  the probe give up, even though its result is never used afterwards.
- Both Go loops test `errors.Is(err, perf.ErrClosed)`. `Closed` stands for the error
  that this test recognises.

## Model

| member | source | states |
|---|---|---|
| `LittleEndian.FromU32` | main.go:217 | the little-endian form of a `uint32` is four bytes whose first is the value's low byte (with `ToFromU32`/`FromToU32`, exactly the bytes `binary.LittleEndian` reads) |
| `LittleEndian.ToU32` | main.go:260 | four bytes read little-endian give a `uint32` whose low byte is the first byte |
| `LittleEndian.ToFromU32` | main.go:217 | reading back four little-endian bytes of a `uint32` gives the value |
| `LittleEndian.FromToU32` | main.go:260 | any four bytes are the little-endian encoding of the value they decode to |
| `LittleEndian.FromU32Injective` | main.go:217 | distinct `uint32` values have distinct encodings |
| `Probe.DirectionCode` | bpf/http/tc_http.c:24 | the `tc_type` enum values are 0 and 1 |
| `Probe.DirectionOf` | bpf/http/tc_http.c:24 | a `type` value names a direction iff it is below 2, and it names the direction whose code it is |
| `Probe.Capture` | bpf/http/tc_http.c:59-140 | the probe always returns `TC_ACT_OK`; an event is produced only for an IPv4/TCP frame of more than 91 bytes when both helpers succeed; the event is tagged with the hook's direction, `data_len == min(len, 4000)`, and its first `data_len` bytes are the frame's |
| `Probe.EgressClsFunc` | bpf/http/tc_http.c:143-144 | the egress hook passes the frame and tags its events with `type == 0` |
| `Probe.IngressClsFunc` | bpf/http/tc_http.c:147-148 | the ingress hook passes the frame and tags its events with `type == 1` |
| `Probe.CopyPayload` | bpf/http/tc_http.c:121-135 | the bounded loop copies exactly `min(len, 4000)` bytes verbatim, writes only indices below 4000, and leaves the rest of the reservation untouched |
| `Probe.CapturePackets` | bpf/http/tc_http.c:59-140 | the step-by-step probe, including its copy loop, yields the same action and event as `Capture` on every input |
| `Probe.Ipv4EtherTypeBytes` | bpf/http/tc_http.c:72 | comparing `h_proto` with `htons(ETH_P_IP)` accepts exactly the frames whose bytes 12 and 13 are 0x08 and 0x00 |
| `Probe.CaptureEmitsIff` | bpf/http/tc_http.c:66-110 | an event is produced if and only if the frame is longer than 91 bytes, bytes 12..13 are 0x08 0x00, byte 23 is 6, the scratch lookup succeeds and the reservation succeeds |
| `Probe.AlwaysPassesThrough` | bpf/http/tc_http.c:66-139 | every path returns `TC_ACT_OK`, never UNSPEC, SHOT, STOLEN or REDIRECT (the reservation-failure path's literal 0 included) |
| `Probe.ShortFrameRejected` | bpf/http/tc_http.c:66-68 | a frame shorter than 14+20+20 bytes passes and produces no event |
| `Probe.NonIpv4Rejected` | bpf/http/tc_http.c:71-74 | a frame whose Ethernet type bytes are not 0x08 0x00 passes and produces no event |
| `Probe.NonTcpRejected` | bpf/http/tc_http.c:77-80 | a frame whose byte 23 is not 6 passes and produces no event |
| `Probe.MinimumHttpSize` | bpf/http/tc_http.c:92-97 | a frame of at most 91 bytes passes and produces no event |
| `Probe.HelperFailureDrops` | bpf/http/tc_http.c:99-110 | a failed scratch lookup or a failed reservation drops the event silently and still passes the frame |
| `Probe.IhlIgnored` | bpf/http/tc_http.c:77-78 | the version/IHL byte never changes whether a frame is captured |
| `Probe.TailIsStale` | bpf/http/tc_http.c:104-135 | event bytes past `data_len` are the reservation's previous contents |
| `Record.Encode` | bpf/http/tc_http.c:26-30 | an event occupies 4008 bytes: `type` little-endian at 0, `data` at 4..4003, `data_len` little-endian at 4004 |
| `Record.Decode` | main.go:217 | `binary.Read` succeeds exactly when the sample has at least 4008 bytes |
| `Record.DecodeEncode` | main.go:260 | decoding an encoded event yields the same `type`, `data` and `data_len` |
| `Record.EncodeDecode` | main.go:217 | a decodable sample's first 4008 bytes are exactly the encoding of its decoded event |
| `Record.DecodeIgnoresTrailing` | main.go:260 | bytes after the first 4008 never change the decoded event |
| `Record.EncodeInjective` | bpf/http/tc_http.c:26-30 | distinct events have distinct wire records |
| `Reader.ReadLoop` | main.go:204-222 | the loop queues at most one event per read |
| `Reader.ReadLoopIsDecodedPrefix` | main.go:204-222 | the queue is exactly the decodable samples read before the first close, in read order |
| `Reader.ReadLoopAppend` | main.go:221 | for reads without a close, the queue of a concatenation is the concatenation of the queues (order preserved) |
| `Reader.StopsAtClose` | main.go:207-211 | nothing read after the reader-closed error is processed or queued |
| `Reader.IoErrSkipped` | main.go:212-213 | a non-close read error is skipped and the loop continues with the next read |
| `Reader.UndecodableSkipped` | main.go:217-220 | a sample that fails to decode is dropped alone and later reads are still processed |
| `Reader.DecodedEnqueued` | main.go:217-221 | a decodable sample before any close is queued between the events of earlier and later reads |
| `Reader.RunReadLoop` | main.go:247-265 | the imperative loop, for either transport, queues exactly what `ReadLoop` and the decoded-prefix reference definition give, so the ring-buffer and perf variants agree |
| `Reader.ConsumerSlice` | main.go:193 | `Data[:DataLen]` is in bounds iff `DataLen <= 4000`, and is then a `DataLen`-byte prefix of `Data` |
| `Reader.OversizedDataLenDecodes` | main.go:236 | a well-formed record may carry `data_len > 4000`, and its slice would panic: the bound comes from the probe only |
| `Pipeline.CapturedFrameReachesConsumer` | bpf/http/tc_http.c:112-137 | a captured frame's record is queued as the same event; its consumer slice is the frame's first `min(len, 4000)` bytes; its tag decodes to the firing hook |
| `Pipeline.ProbeEventSliceInBounds` | main.go:193 | every event the probe can produce has an in-bounds consumer slice |
| `Pipeline.TransportPreservesEvents` | main.go:221 | records read without errors are queued unchanged and in submission order |
| `Pipeline.QueuedProbeEventsInBounds` | main.go:236 | for any mix of errors, closes and probe records, every queued event has an in-bounds consumer slice |

## Left out

- `Record.Encode`: the probe writes `type` and `data_len` in host byte order. The model assumes a little-endian host (x86-64, arm64), as main.go's hard-coded `binary.LittleEndian` does. On a big-endian host both fields would decode byte-swapped and `Data[:DataLen]` would panic.
- `Probe.Capture`: frames longer than 2^32-1 bytes are excluded by a precondition. `skb->len` is a `__u32`, so the `(__u32)` cast at tc_http.c:82 never truncates.
- `Probe.CapturePackets`: the `len < 0` branch (tc_http.c:87-89) cannot fire on an unsigned value and is not modelled.
- `Reader.ReadLoop`: the Go loop runs until the reader is closed. The model processes a finite list of read outcomes, and a list with no close models the reads made so far.
- `Reader.RunReadLoop`: the 100-slot channel's blocking on a full queue is not modelled. The queue is only the ordered sequence of sends.
- `create_http_data_event` (tc_http.c:49-57) returns the per-CPU lookup result unchanged. The probe only checks that result for NULL and then overwrites the pointer, so the model keeps only the `heapOk` outcome.
- `bpf_skb_pull_data`, `bpf_map_lookup_elem`, `bpf_ringbuf_reserve` and `bpf_ringbuf_submit` are helper internals. They are represented by the linear frame and the two oracles. Submission is the appearance of the event in the probe's result.
- `bpf_printk` debug output under `DEBUG`, and all `log.Printf` calls, are I/O.
- `bpf/http/tc_http_perf.c` is not part of this model. The pipeline lemmas describe the ring-buffer probe. The perf path is covered only from the reader side: its records are assumed to decode with the same 4008-byte layout, as both loops decode with the same `binary.Read` call. `Reader.RunReadLoop` runs one loop for both modes, so the variants agree because the two Go loops are the same code.
- The ring-buffer loop's closed check uses the perf package's sentinel. Whether the ring-buffer reader returns an error matching it is up to the reader library, which is not part of this model.
- Netlink attachment (`replaceQdisc`, `attachTC`, `FilterDel` defers, main.go:83-98 and 269-308) is thin wrappers over netlink.
- Signal handling, the shutdown goroutine and channel closing (main.go:100-121, 150-174) are concurrency, which this sequential model cannot express. This includes the hazard at main.go:116-118: the queue is closed before `rd.Close()`, so a send already in flight panics with "send on closed channel".
- Kernel version gating (`GetKernelVersion`, `isMinKernelVer`, `isMaxKernelVer`, main.go:54-75) is defined outside the shown files. The transport choice appears only as the `TransportMode` parameter.
- Flag parsing, interface lookup, leveldb storage, `parseHttp`, `saveHttpData` and `runListening` are external collaborators.
