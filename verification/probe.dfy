/** The TC classifier that taps every frame at the ingress and egress hooks
    (bpf/http/tc_http.c). The socket buffer is modelled as its already
    linearised byte sequence; the two BPF helpers that can fail are oracles:
    `heapOk` is the outcome of the per-CPU scratch lookup and `reserve` the
    outcome of the ring-buffer reservation. */
module Probe {
  import opened Common

  // Traffic-control action codes (tc_http.c:8-12).
  const TC_ACT_UNSPEC: int := -1
  const TC_ACT_OK: int := 0
  const TC_ACT_SHOT: int := 2
  const TC_ACT_STOLEN: int := 4
  const TC_ACT_REDIRECT: int := 7

  const ETH_P_IP: int := 0x0800
  const IPPROTO_TCP: int := 6

  // Sizes of the fixed Ethernet, IPv4 and TCP headers (no IP or TCP options).
  const ETH_HLEN: nat := 14
  const IP_HLEN: nat := 20
  const TCP_HLEN: nat := 20
  /** Offset of the protocol field inside the IPv4 header. */
  const IP_PROTOCOL_OFFSET: nat := 9

  const HTTP_DATA_MIN_SIZE: nat := 91
  const MAX_DATA_SIZE: nat := 4000

  /** `skb->len` is a `__u32`, so no linear frame is longer than this. */
  const MAX_SKB_LEN: nat := 0xFFFF_FFFF

  /** The hook a probe invocation fires at (`enum tc_type`). */
  datatype Direction = Egress | Ingress

  /** The enum value C assigns: declaration order, starting at zero. */
  function DirectionCode(d: Direction): (c: u32)
    ensures c < 2
  {
    match d
    case Egress => 0
    case Ingress => 1
  }

  /** The direction a `type` field denotes, if any. */
  function DirectionOf(c: u32): (d: Option<Direction>)
    ensures d.Some? <==> c < 2
    ensures d.Some? ==> DirectionCode(d.value) == c
  {
    if c == 0 then Some(Egress) else if c == 1 then Some(Ingress) else None
  }

  /** The `data` array of the event: exactly MAX_DATA_SIZE bytes. */
  type Payload = s: seq<byte> | |s| == MAX_DATA_SIZE witness seq(MAX_DATA_SIZE, _ => 0)

  /** `struct http_data_event`: the direction tag, the frame prefix and its length. */
  datatype HttpDataEvent = HttpDataEvent(kind: u32, data: Payload, dataLen: u32)

  /** What one probe invocation yields: the TC action code it returns and the
      event it submits to the ring buffer, if any. */
  datatype ProbeResult = ProbeResult(action: int, event: Option<HttpDataEvent>)

  /** The frame holds a full Ethernet, IPv4 and TCP header. */
  predicate CoversHeaders(frame: seq<byte>)
  {
    |frame| >= ETH_HLEN + IP_HLEN + TCP_HLEN
  }

  /** `eth->h_proto`, read in network byte order. */
  function EtherType(frame: seq<byte>): int
    requires CoversHeaders(frame)
  {
    0x100 * (frame[12] as int) + frame[13] as int
  }

  /** `iph->protocol`, at a fixed offset: the IHL field is never consulted. */
  function IpProtocol(frame: seq<byte>): byte
    requires CoversHeaders(frame)
  {
    frame[ETH_HLEN + IP_PROTOCOL_OFFSET]
  }

  /** The header filters of the probe: long enough, IPv4, TCP. */
  predicate IsTcpOverIpv4(frame: seq<byte>)
  {
    && CoversHeaders(frame)
    && EtherType(frame) == ETH_P_IP
    && IpProtocol(frame) == IPPROTO_TCP
  }

  /** The event's data after the copy: the first `n` bytes come from the
      frame, the rest keep whatever the reserved memory held before. */
  function Fill(frame: seq<byte>, stale: Payload, n: nat): Payload
    requires n <= |frame| && n <= MAX_DATA_SIZE
  {
    frame[..n] + stale[n..]
  }

  /** One invocation of `capture_packets` for a frame seen at hook `dir`. */
  function Capture(frame: seq<byte>, dir: Direction, heapOk: bool, reserve: Option<Payload>): (r: ProbeResult)
    requires |frame| <= MAX_SKB_LEN
    ensures r.action == TC_ACT_OK
    ensures r.event.Some? ==> IsTcpOverIpv4(frame) && |frame| > HTTP_DATA_MIN_SIZE
    ensures r.event.Some? ==> heapOk && reserve.Some?
    ensures r.event.Some? ==> DirectionOf(r.event.value.kind) == Some(dir)
    ensures r.event.Some? ==> r.event.value.dataLen == Min(|frame|, MAX_DATA_SIZE)
    ensures r.event.Some? ==>
              forall i :: 0 <= i < r.event.value.dataLen ==> r.event.value.data[i] == frame[i]
  {
    if !CoversHeaders(frame) then ProbeResult(TC_ACT_OK, None)
    else if EtherType(frame) != ETH_P_IP then ProbeResult(TC_ACT_OK, None)
    else if IpProtocol(frame) != IPPROTO_TCP then ProbeResult(TC_ACT_OK, None)
    else
      var len: u32 := |frame|;
      if len <= HTTP_DATA_MIN_SIZE then ProbeResult(TC_ACT_OK, None)
      else if !heapOk then ProbeResult(TC_ACT_OK, None)
      else
        match reserve
        case None => ProbeResult(0, None)
        case Some(stale) =>
          var dataLen: u32 := if len < MAX_DATA_SIZE then len else MAX_DATA_SIZE;
          ProbeResult(TC_ACT_OK, Some(HttpDataEvent(DirectionCode(dir), Fill(frame, stale, dataLen), dataLen)))
  }

  /** `egress_cls_func`: the probe at the egress hook. */
  function EgressClsFunc(frame: seq<byte>, heapOk: bool, reserve: Option<Payload>): (r: ProbeResult)
    requires |frame| <= MAX_SKB_LEN
    ensures r.action == TC_ACT_OK
    ensures r.event.Some? ==> r.event.value.kind == 0
  {
    Capture(frame, Egress, heapOk, reserve)
  }

  /** `ingress_cls_func`: the probe at the ingress hook. */
  function IngressClsFunc(frame: seq<byte>, heapOk: bool, reserve: Option<Payload>): (r: ProbeResult)
    requires |frame| <= MAX_SKB_LEN
    ensures r.action == TC_ACT_OK
    ensures r.event.Some? ==> r.event.value.kind == 1
  {
    Capture(frame, Ingress, heapOk, reserve)
  }

  /** The bounded copy loop of `capture_packets`: at most MAX_DATA_SIZE steps,
      each re-checking the source bound before it reads a byte. */
  method CopyPayload(frame: seq<byte>, stale: Payload) returns (data: Payload, copied: nat)
    ensures copied == Min(|frame|, MAX_DATA_SIZE)
    ensures forall k :: 0 <= k < copied ==> data[k] == frame[k]
    ensures forall k :: copied <= k < MAX_DATA_SIZE ==> data[k] == stale[k]
  {
    data := stale;
    var cursor: nat := 0;
    var namePos: nat := 0;
    for i := 0 to MAX_DATA_SIZE
      invariant cursor == namePos == i
      invariant i <= |frame|
      invariant forall k :: 0 <= k < namePos ==> data[k] == frame[k]
      invariant forall k :: namePos <= k < MAX_DATA_SIZE ==> data[k] == stale[k]
    {
      if cursor + 1 > |frame| {
        break;
      }
      data := data[namePos := frame[cursor]];
      cursor := cursor + 1;
      namePos := namePos + 1;
    }
    copied := namePos;
  }

  /** `capture_packets` step by step, in the order the C code takes them. */
  method CapturePackets(frame: seq<byte>, dir: Direction, heapOk: bool, reserve: Option<Payload>)
    returns (action: int, event: Option<HttpDataEvent>)
    requires |frame| <= MAX_SKB_LEN
    ensures ProbeResult(action, event) == Capture(frame, dir, heapOk, reserve)
  {
    if |frame| < ETH_HLEN + IP_HLEN + TCP_HLEN {
      return TC_ACT_OK, None;
    }
    if EtherType(frame) != ETH_P_IP {
      return TC_ACT_OK, None;
    }
    if IpProtocol(frame) != IPPROTO_TCP {
      return TC_ACT_OK, None;
    }
    var len: u32 := |frame|;
    if len <= HTTP_DATA_MIN_SIZE {
      return TC_ACT_OK, None;
    }
    // create_http_data_event: only a NULL scratch value matters.
    if !heapOk {
      return TC_ACT_OK, None;
    }
    if reserve.None? {
      return 0, None;
    }
    var dataLen: u32 := if len < MAX_DATA_SIZE then len else MAX_DATA_SIZE;
    var data, copied := CopyPayload(frame, reserve.value);
    assert data == Fill(frame, reserve.value, dataLen);
    return TC_ACT_OK, Some(HttpDataEvent(DirectionCode(dir), data, dataLen));
  }

  /** The Ethernet type is IPv4 exactly when the two type bytes are 0x08, 0x00. */
  lemma Ipv4EtherTypeBytes(frame: seq<byte>)
    requires CoversHeaders(frame)
    ensures EtherType(frame) == ETH_P_IP <==> frame[12] == 0x08 && frame[13] == 0x00
  {
    if EtherType(frame) == ETH_P_IP {
      var hi: int, lo: int := frame[12], frame[13];
      assert 0x100 * hi + lo == 0x0800;
    }
  }

  /** An event is submitted exactly when every filter and both helpers succeed. */
  lemma CaptureEmitsIff(frame: seq<byte>, dir: Direction, heapOk: bool, reserve: Option<Payload>)
    requires |frame| <= MAX_SKB_LEN
    ensures Capture(frame, dir, heapOk, reserve).event.Some?
        <==> && |frame| > HTTP_DATA_MIN_SIZE
             && frame[12] == 0x08 && frame[13] == 0x00
             && frame[ETH_HLEN + IP_PROTOCOL_OFFSET] == IPPROTO_TCP
             && heapOk && reserve.Some?
  {
    if |frame| > HTTP_DATA_MIN_SIZE {
      Ipv4EtherTypeBytes(frame);
    }
  }

  /** Every path through the probe lets the packet through: it never shoots,
      steals or redirects a frame. */
  lemma AlwaysPassesThrough(frame: seq<byte>, dir: Direction, heapOk: bool, reserve: Option<Payload>)
    requires |frame| <= MAX_SKB_LEN
    ensures Capture(frame, dir, heapOk, reserve).action == TC_ACT_OK
    ensures Capture(frame, dir, heapOk, reserve).action !in {TC_ACT_UNSPEC, TC_ACT_SHOT, TC_ACT_STOLEN, TC_ACT_REDIRECT}
  {
  }

  /** A frame shorter than the three headers produces no event. */
  lemma ShortFrameRejected(frame: seq<byte>, dir: Direction, heapOk: bool, reserve: Option<Payload>)
    requires |frame| < ETH_HLEN + IP_HLEN + TCP_HLEN
    ensures Capture(frame, dir, heapOk, reserve) == ProbeResult(TC_ACT_OK, None)
  {
  }

  /** A frame whose Ethernet type bytes are not 0x08, 0x00 produces no event. */
  lemma NonIpv4Rejected(frame: seq<byte>, dir: Direction, heapOk: bool, reserve: Option<Payload>)
    requires 14 <= |frame| <= MAX_SKB_LEN
    requires frame[12] != 0x08 || frame[13] != 0x00
    ensures Capture(frame, dir, heapOk, reserve) == ProbeResult(TC_ACT_OK, None)
  {
    if CoversHeaders(frame) {
      Ipv4EtherTypeBytes(frame);
    }
  }

  /** A frame whose byte 23 (the IPv4 protocol field) is not TCP produces no event. */
  lemma NonTcpRejected(frame: seq<byte>, dir: Direction, heapOk: bool, reserve: Option<Payload>)
    requires ETH_HLEN + IP_PROTOCOL_OFFSET < |frame| <= MAX_SKB_LEN
    requires frame[ETH_HLEN + IP_PROTOCOL_OFFSET] != IPPROTO_TCP
    ensures Capture(frame, dir, heapOk, reserve) == ProbeResult(TC_ACT_OK, None)
  {
  }

  /** A frame of at most HTTP_DATA_MIN_SIZE bytes produces no event, so every
      captured frame had at least 92 bytes. */
  lemma MinimumHttpSize(frame: seq<byte>, dir: Direction, heapOk: bool, reserve: Option<Payload>)
    requires |frame| <= HTTP_DATA_MIN_SIZE
    ensures Capture(frame, dir, heapOk, reserve) == ProbeResult(TC_ACT_OK, None)
  {
  }

  /** When the scratch lookup or the reservation fails the frame is dropped
      from the capture, silently, and still passes. */
  lemma HelperFailureDrops(frame: seq<byte>, dir: Direction, heapOk: bool, reserve: Option<Payload>)
    requires |frame| <= MAX_SKB_LEN
    requires !heapOk || reserve.None?
    ensures Capture(frame, dir, heapOk, reserve) == ProbeResult(TC_ACT_OK, None)
  {
  }

  /** The version/IHL byte never influences whether a frame is captured:
      the protocol is read at a fixed offset. */
  lemma IhlIgnored(frame: seq<byte>, v: byte, dir: Direction, heapOk: bool, reserve: Option<Payload>)
    requires ETH_HLEN < |frame| <= MAX_SKB_LEN
    ensures Capture(frame[ETH_HLEN := v], dir, heapOk, reserve).event.Some?
        == Capture(frame, dir, heapOk, reserve).event.Some?
  {
    CaptureEmitsIff(frame, dir, heapOk, reserve);
    CaptureEmitsIff(frame[ETH_HLEN := v], dir, heapOk, reserve);
  }

  /** The bytes past `data_len` are the reservation's previous contents:
      the probe never clears them. */
  lemma TailIsStale(frame: seq<byte>, dir: Direction, heapOk: bool, stale: Payload)
    requires |frame| <= MAX_SKB_LEN
    requires Capture(frame, dir, heapOk, Some(stale)).event.Some?
    ensures var e := Capture(frame, dir, heapOk, Some(stale)).event.value;
            e.data[e.dataLen..] == stale[e.dataLen..]
  {
  }
}
