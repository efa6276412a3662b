/**
 * The exact bytes of a log: what the writer emits for a configuration and a
 * sequence of payloads.
 */
module WalImage {
  import opened Words
  import opened Crc32
  import opened WalGeometry
  import opened WalFormat

  type Payload = seq<byte>

  function FileHeaderCrc(header: FileHeader): u32 {
    CrcValue(SerializeFileHeader(header.(headerCrc := 0)))
  }

  function RecordHeaderCrc(header: RecordHeader): u32 {
    CrcValue(SerializeRecordHeader(header.(headerCrc := 0)))
  }

  function BlankFileHeader(config: WalConfig): FileHeader {
    FileHeader(
      FILE_MAGIC, FORMAT_VERSION, FILE_HEADER_SIZE, config.streamKind, 0,
      config.payloadSize, config.payloadSchemaVersion, config.alignment, RecordsOffset(config),
      config.streamId, config.epochId, config.firstSequence, config.manifestId, 0)
  }

  function WriterFileHeader(config: WalConfig): FileHeader {
    var header := BlankFileHeader(config);
    header.(headerCrc := FileHeaderCrc(header))
  }

  function BlankRecordHeader(sequence: u64, payload: Payload): RecordHeader {
    RecordHeader(RECORD_MAGIC, FORMAT_VERSION, RECORD_HEADER_SIZE, sequence, CrcValue(payload), 0)
  }

  function WriterRecordHeader(sequence: u64, payload: Payload): RecordHeader {
    var header := BlankRecordHeader(sequence, payload);
    header.(headerCrc := RecordHeaderCrc(header))
  }

  function FileHead(config: WalConfig): seq<byte> {
    SerializeFileHeader(WriterFileHeader(config)) + Zeros(FileHeaderPaddingSize(config))
  }

  function RecordBytes(config: WalConfig, sequence: u64, payload: Payload): seq<byte> {
    SerializeRecordHeader(WriterRecordHeader(sequence, payload)) + payload + Zeros(PaddingSize(config))
  }

  /** Payloads a log of this configuration can hold: of the right size, within the sequence space. */
  predicate Storable(config: WalConfig, payloads: seq<Payload>) {
    && config.firstSequence + |payloads| <= U64_MAX + 1
    && forall i :: 0 <= i < |payloads| ==> |payloads[i]| == config.payloadSize
  }

  function Image(config: WalConfig, payloads: seq<Payload>): seq<byte>
    requires Storable(config, payloads)
  {
    if payloads == [] then FileHead(config)
    else
      var n := |payloads| - 1;
      Image(config, payloads[..n]) + RecordBytes(config, config.firstSequence + n, payloads[n])
  }

  /** Where record `count` starts. */
  function Offset(config: WalConfig, count: nat): nat {
    RecordsOffset(config) + count * AlignedRecordSize(config)
  }

  lemma OffsetNext(config: WalConfig, count: nat)
    ensures Offset(config, count + 1) == Offset(config, count) + AlignedRecordSize(config)
    ensures Offset(config, 0) == RecordsOffset(config)
  {}

  lemma OffsetMono(config: WalConfig, a: nat, b: nat)
    requires a <= b
    ensures Offset(config, a) <= Offset(config, b)
  {
    MulMono(a, b, AlignedRecordSize(config));
  }

  lemma FileHeadSize(config: WalConfig)
    requires PowerOfTwo(config.alignment)
    ensures |FileHead(config)| == RecordsOffset(config) >= 64
  {
    Geometry(config);
  }

  lemma RecordBytesSize(config: WalConfig, sequence: u64, payload: Payload)
    requires PowerOfTwo(config.alignment) && |payload| == config.payloadSize
    ensures |RecordBytes(config, sequence, payload)| == AlignedRecordSize(config) >= 24 + config.payloadSize
  {
    Geometry(config);
  }

  lemma {:induction false} ImageSize(config: WalConfig, payloads: seq<Payload>)
    requires PowerOfTwo(config.alignment) && Storable(config, payloads)
    ensures |Image(config, payloads)| == Offset(config, |payloads|)
  {
    hide FileHead, RecordBytes, RecordsOffset, AlignedRecordSize, Offset;
    OffsetNext(config, 0);
    if payloads == [] {
      FileHeadSize(config);
    } else {
      var n := |payloads| - 1;
      ImageSize(config, payloads[..n]);
      RecordBytesSize(config, config.firstSequence + n, payloads[n]);
      OffsetNext(config, n);
    }
  }

  lemma ImageSnoc(config: WalConfig, payloads: seq<Payload>, payload: Payload)
    requires Storable(config, payloads + [payload])
    ensures Storable(config, payloads)
    ensures Image(config, payloads + [payload])
         == Image(config, payloads) + RecordBytes(config, config.firstSequence + |payloads|, payload)
  {
    hide *;
    var all, n := payloads + [payload], |payloads|;
    assert all[n] == payload;
    assert all[..n] == payloads;
    ImageLast(config, all);
  }

  lemma ImageLast(config: WalConfig, payloads: seq<Payload>)
    requires Storable(config, payloads) && payloads != []
    ensures var n := |payloads| - 1;
      && Storable(config, payloads[..n])
      && Image(config, payloads)
         == Image(config, payloads[..n]) + RecordBytes(config, config.firstSequence + n, payloads[n])
  {
    hide RecordBytes, FileHead, Storable;
    StorableFront(config, payloads);
  }

  lemma StorableFront(config: WalConfig, payloads: seq<Payload>)
    requires Storable(config, payloads) && payloads != []
    ensures Storable(config, payloads[..|payloads| - 1]) && config.firstSequence + |payloads| - 1 <= U64_MAX
  {}

  /** The image of a shorter log is a prefix, and record `n` sits at its offset. */
  lemma {:induction false} ImagePrefix(config: WalConfig, payloads: seq<Payload>, n: nat)
    requires PowerOfTwo(config.alignment) && Storable(config, payloads) && n <= |payloads|
    ensures Storable(config, payloads[..n])
    ensures Offset(config, n) <= |Image(config, payloads)|
    ensures Image(config, payloads)[..Offset(config, n)] == Image(config, payloads[..n])
    decreases |payloads|
  {
    hide RecordBytes, FileHead, RecordsOffset, AlignedRecordSize, Offset;
    ImageSize(config, payloads);
    if n == |payloads| {
      assert payloads[..n] == payloads;
    } else {
      var m := |payloads| - 1;
      ImagePrefix(config, payloads[..m], n);
      assert payloads[..m][..n] == payloads[..n];
    }
  }

  lemma ImageRecord(config: WalConfig, payloads: seq<Payload>, n: nat)
    requires PowerOfTwo(config.alignment) && Storable(config, payloads) && n < |payloads|
    ensures Offset(config, n) <= Offset(config, n + 1) <= |Image(config, payloads)|
    ensures Image(config, payloads)[Offset(config, n)..Offset(config, n + 1)]
         == RecordBytes(config, config.firstSequence + n, payloads[n])
  {
    hide RecordBytes, FileHead, RecordsOffset, AlignedRecordSize, Offset;
    ImagePrefix(config, payloads, n + 1);
    ImagePrefix(config, payloads, n);
    ImageSize(config, payloads[..n]);
    assert payloads[..n + 1] == payloads[..n] + [payloads[n]];
    ImageSnoc(config, payloads[..n], payloads[n]);
    ImageSize(config, payloads[..n + 1]);
    var image := Image(config, payloads);
    var whole := image[..Offset(config, n + 1)];
    RecordBytesSize(config, config.firstSequence + n, payloads[n]);
    assert whole[Offset(config, n)..] == image[Offset(config, n)..Offset(config, n + 1)];
  }
}
