/** The wire form of `struct http_data_event` as it crosses from the probe to
    userspace, and its decoding by `binary.Read(..., binary.LittleEndian, &event)`
    (main.go:217, main.go:260). */
module Record {
  import opened Common
  import opened LittleEndian
  import opened Probe

  // Field offsets of the C struct: no padding, since every field is 4-aligned.
  const TYPE_OFFSET: nat := 0
  const DATA_OFFSET: nat := 4
  const DATA_LEN_OFFSET: nat := DATA_OFFSET + MAX_DATA_SIZE
  /** `sizeof(struct http_data_event)`: the size the probe reserves and the
      number of bytes `binary.Read` consumes. */
  const RECORD_SIZE: nat := DATA_LEN_OFFSET + 4

  /** The bytes the probe's event occupies in the transport. */
  function Encode(e: HttpDataEvent): (raw: seq<byte>)
    ensures |raw| == RECORD_SIZE == 4008
    ensures raw[TYPE_OFFSET..DATA_OFFSET] == FromU32(e.kind)
    ensures raw[DATA_OFFSET..DATA_LEN_OFFSET] == e.data
    ensures raw[DATA_LEN_OFFSET..RECORD_SIZE] == FromU32(e.dataLen)
  {
    FromU32(e.kind) + e.data + FromU32(e.dataLen)
  }

  /** `binary.Read` into the generated event struct: it needs RECORD_SIZE
      bytes, reads the three fields little-endian and ignores any bytes after
      them; a shorter sample is an EOF error. */
  function Decode(raw: seq<byte>): (r: Option<HttpDataEvent>)
    ensures r.Some? <==> |raw| >= RECORD_SIZE
  {
    if |raw| < RECORD_SIZE then None
    else
      Some(HttpDataEvent(
        ToU32(raw[TYPE_OFFSET..DATA_OFFSET]),
        raw[DATA_OFFSET..DATA_LEN_OFFSET],
        ToU32(raw[DATA_LEN_OFFSET..RECORD_SIZE])))
  }

  /** Decoding what the probe wrote gives back its event, field for field. */
  lemma DecodeEncode(e: HttpDataEvent)
    ensures Decode(Encode(e)) == Some(e)
  {
    var raw := Encode(e);
    ToFromU32(e.kind);
    ToFromU32(e.dataLen);
    assert raw[TYPE_OFFSET..DATA_OFFSET] == FromU32(e.kind);
    assert raw[DATA_LEN_OFFSET..RECORD_SIZE] == FromU32(e.dataLen);
  }

  /** A decodable sample is, in its first RECORD_SIZE bytes, exactly the
      encoding of what it decodes to. */
  lemma EncodeDecode(raw: seq<byte>)
    requires |raw| >= RECORD_SIZE
    ensures Decode(raw).Some? && Encode(Decode(raw).value) == raw[..RECORD_SIZE]
  {
    var e := Decode(raw).value;
    FromToU32(raw[TYPE_OFFSET..DATA_OFFSET]);
    FromToU32(raw[DATA_LEN_OFFSET..RECORD_SIZE]);
    var w := raw[..RECORD_SIZE];
    assert w == w[TYPE_OFFSET..DATA_OFFSET] + w[DATA_OFFSET..DATA_LEN_OFFSET] + w[DATA_LEN_OFFSET..RECORD_SIZE];
  }

  /** Bytes after the record never change what it decodes to. */
  lemma DecodeIgnoresTrailing(raw: seq<byte>, extra: seq<byte>)
    requires |raw| >= RECORD_SIZE
    ensures Decode(raw + extra) == Decode(raw)
  {
    var w := raw + extra;
    assert w[TYPE_OFFSET..DATA_OFFSET] == raw[TYPE_OFFSET..DATA_OFFSET];
    assert w[DATA_OFFSET..DATA_LEN_OFFSET] == raw[DATA_OFFSET..DATA_LEN_OFFSET];
    assert w[DATA_LEN_OFFSET..RECORD_SIZE] == raw[DATA_LEN_OFFSET..RECORD_SIZE];
  }

  /** Two events with the same wire form are the same event. */
  lemma EncodeInjective(e1: HttpDataEvent, e2: HttpDataEvent)
    requires Encode(e1) == Encode(e2)
    ensures e1 == e2
  {
    DecodeEncode(e1);
    DecodeEncode(e2);
  }
}
