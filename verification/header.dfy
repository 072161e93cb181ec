/** The module header (src/module_parser/header.h, header.c) and the module record
    (src/module_parser/module.h): a fixed 16-byte header followed by a table of
    segment offsets, validated before any segment is located. */
module Header {
  import opened Wrappers
  import opened Bytes
  import opened CPOffset

  // Byte positions of the header fields (the static_asserts of header.h).
  const MAGIC_AT: nat := 0
  const MAGIC_SIZE: nat := 4
  const MAJOR_AT: nat := 4
  const MINOR_AT: nat := 8
  const BYTE_MODE_AT: nat := 12
  const SEG_COUNTS_AT: nat := 13
  const PADDING_AT: nat := 14
  const SEG_TABLE_AT: nat := 16
  /** sizeof(CPModuleHeader): the flexible segment table adds nothing. */
  const HEADER_SIZE: nat := 16

  /** CP_BYTECODE_MAGIC_NUMBER, compared byte for byte; the last byte is not ASCII. */
  const MAGIC: seq<byte> := [0x63, 0x70, 0x6d, 0x80]
  /** CP_BYTECODE_VERSION_MAJOR. */
  const VERSION_MAJOR: nat := 0

  /** Why a module, a segment or a string could not be resolved. The C functions
      collapse all of these into -1 or NULL. */
  datatype Error =
    | TooSmall
    | TableOverflowsBuffer
    | BadMagic
    | UnsupportedVersion
    | InvalidByteMode
    | IndexOutOfRange
    | OffsetOutOfRange

  /** CPModule: the caller's buffer and the byte mode fixed by its header. */
  datatype Module = Module(data: seq<byte>, byteMode: byte)

  /** CPModuleHeader without its trailing segment table, which stays in the buffer. */
  datatype ModuleHeader = ModuleHeader(
    magic: seq<byte>,
    major: u32,
    minor: u32,
    byteMode: byte,
    segCounts: byte,
    padding: seq<byte>)

  predicate WellFormed(h: ModuleHeader) {
    |h.magic| == MAGIC_SIZE && |h.padding| == 2
  }

  /** The header fields read from the first 16 bytes of a buffer. */
  function DecodeHeader(bs: seq<byte>): (h: ModuleHeader)
    requires |bs| >= HEADER_SIZE
    ensures WellFormed(h)
  {
    Pow256Values();
    ModuleHeader(bs[MAGIC_AT..MAJOR_AT], DecodeLE(bs[MAJOR_AT..MINOR_AT]), DecodeLE(bs[MINOR_AT..BYTE_MODE_AT]),
                 bs[BYTE_MODE_AT], bs[SEG_COUNTS_AT], bs[PADDING_AT..SEG_TABLE_AT])
  }

  /** The 16 bytes of a header, each field at the offset header.h asserts. */
  function EncodeHeader(h: ModuleHeader): (bs: seq<byte>)
    requires WellFormed(h)
    ensures |bs| == HEADER_SIZE
    ensures bs[MAGIC_AT..MAGIC_AT + MAGIC_SIZE] == h.magic
    ensures DecodeLE(bs[MAJOR_AT..MAJOR_AT + 4]) == h.major
    ensures DecodeLE(bs[MINOR_AT..MINOR_AT + 4]) == h.minor
    ensures bs[BYTE_MODE_AT] == h.byteMode
    ensures bs[SEG_COUNTS_AT] == h.segCounts
    ensures bs[PADDING_AT..PADDING_AT + 2] == h.padding
  {
    Pow256Values();
    var major := EncodeLE(h.major, 4);
    var minor := EncodeLE(h.minor, 4);
    DecodeEncode(h.major, 4);
    DecodeEncode(h.minor, 4);
    var bs := h.magic + major + minor + [h.byteMode, h.segCounts] + h.padding;
    assert bs[MAJOR_AT..MAJOR_AT + 4] == major;
    assert bs[MINOR_AT..MINOR_AT + 4] == minor;
    bs
  }

  /** Decoding an encoded header gives the header back. */
  lemma DecodeEncodeHeader(h: ModuleHeader)
    requires WellFormed(h)
    ensures DecodeHeader(EncodeHeader(h)) == h
  {
  }

  /** Encoding the decoded first 16 bytes gives those bytes back. */
  lemma EncodeDecodeHeader(bs: seq<byte>)
    requires |bs| == HEADER_SIZE
    ensures EncodeHeader(DecodeHeader(bs)) == bs
  {
    var h := DecodeHeader(bs);
    var e := EncodeHeader(h);
    EncodeDecode(bs[MAJOR_AT..MINOR_AT]);
    EncodeDecode(bs[MINOR_AT..BYTE_MODE_AT]);
    assert e[MAJOR_AT..MINOR_AT] == bs[MAJOR_AT..MINOR_AT];
    assert e[MINOR_AT..BYTE_MODE_AT] == bs[MINOR_AT..BYTE_MODE_AT];
    assert e == e[..MAJOR_AT] + e[MAJOR_AT..MINOR_AT] + e[MINOR_AT..BYTE_MODE_AT] + e[BYTE_MODE_AT..];
    assert bs == bs[..MAJOR_AT] + bs[MAJOR_AT..MINOR_AT] + bs[MINOR_AT..BYTE_MODE_AT] + bs[BYTE_MODE_AT..];
  }

  /** End of the segment table as header.c computes it, in size_t: 16 plus
      GetSizeByByteMode(mode) * seg_counts, where GetSizeByByteMode(mode) is
      GetOffsetByCount(mode, 1) and so (size_t)-1 for an invalid mode. */
  function SegTableEnd(mode: byte, segCounts: byte): (r: nat)
    ensures ValidMode(mode) ==> r == HEADER_SIZE + Width(mode) * segCounts
  {
    SizeAdd(HEADER_SIZE, SizeMul(GetOffsetByCount(mode, 1), segCounts))
  }

  /** The header's mode is valid and its whole segment table lies inside the buffer. */
  predicate SegTableInBuffer(data: seq<byte>, h: ModuleHeader) {
    ValidMode(h.byteMode) && HEADER_SIZE + Width(h.byteMode) * h.segCounts <= |data|
  }

  /** A module whose byte mode was fixed from a header whose segment table it holds. */
  predicate Loaded(m: Module, h: ModuleHeader) {
    m.byteMode == h.byteMode && SegTableInBuffer(m.data, h)
  }

  /** The acceptance condition of the header, stated on the raw bytes. */
  predicate Acceptable(data: seq<byte>) {
    && |data| >= HEADER_SIZE
    && ValidMode(data[BYTE_MODE_AT])
    && HEADER_SIZE + Width(data[BYTE_MODE_AT]) * data[SEG_COUNTS_AT] <= |data|
    && data[MAGIC_AT..MAGIC_AT + MAGIC_SIZE] == MAGIC
    && DecodeLE(data[MAJOR_AT..MAJOR_AT + 4]) == VERSION_MAJOR
  }

  /** CPModuleParser_ParseHeader(data, size, out_header), checks in the order of the source:
      length, segment-table fit, magic, major version, byte mode. The minor version is
      never compared. */
  function ParseHeader(data: seq<byte>): (r: Result<ModuleHeader, Error>)
    ensures |data| < HEADER_SIZE ==> r == Failure(TooSmall)
    ensures r.Success? <==> Acceptable(data)
    ensures r.Success? ==> r.value == DecodeHeader(data) && SegTableInBuffer(data, r.value)
  {
    if |data| < HEADER_SIZE then Failure(TooSmall)
    else
      var h := DecodeHeader(data);
      if |data| < SegTableEnd(h.byteMode, h.segCounts) then Failure(TableOverflowsBuffer)
      else if h.magic != MAGIC then Failure(BadMagic)
      else if h.major != VERSION_MAJOR then Failure(UnsupportedVersion)
      else if IsValidByteMode(h.byteMode) == 0 then Failure(Error.InvalidByteMode)
      else Success(h)
  }

  /** A buffer whose table fits but whose magic differs in any one byte, a NUL or a high
      byte included, is rejected as BadMagic. */
  lemma AnyMagicByteMatters(data: seq<byte>, k: nat)
    requires |data| >= HEADER_SIZE
    requires ValidMode(data[BYTE_MODE_AT])
    requires HEADER_SIZE + Width(data[BYTE_MODE_AT]) * data[SEG_COUNTS_AT] <= |data|
    requires k < MAGIC_SIZE && data[MAGIC_AT + k] != MAGIC[k]
    ensures ParseHeader(data) == Failure(BadMagic)
  {
    assert DecodeHeader(data).magic[k] != MAGIC[k];
  }

  /** The minor version takes no part in the decision: rewriting its four bytes
      never changes whether a header is accepted. */
  lemma MinorIgnored(data: seq<byte>, minor: seq<byte>)
    requires |data| >= HEADER_SIZE && |minor| == 4
    ensures ParseHeader(data[..MINOR_AT] + minor + data[BYTE_MODE_AT..]).Success? == ParseHeader(data).Success?
  {
    var data' := data[..MINOR_AT] + minor + data[BYTE_MODE_AT..];
    assert data'[MAGIC_AT..MAGIC_AT + MAGIC_SIZE] == data[MAGIC_AT..MAGIC_AT + MAGIC_SIZE];
    assert data'[MAJOR_AT..MAJOR_AT + 4] == data[MAJOR_AT..MAJOR_AT + 4];
  }

  /** Position of segment-table entry `index`. */
  function EntryAt(mode: byte, index: nat): nat
    requires ValidMode(mode)
  {
    SEG_TABLE_AT + index * Width(mode)
  }

  /** Entry `index` of the table (index < seg_counts) lies inside the buffer. */
  lemma EntryInBuffer(data: seq<byte>, h: ModuleHeader, index: nat)
    requires SegTableInBuffer(data, h)
    requires index < h.segCounts
    ensures EntryAt(h.byteMode, index) + Width(h.byteMode) <= |data|
  {
    var w := Width(h.byteMode);
    assert (index + 1) * w <= h.segCounts * w;
  }

  /** CPModuleParser_GetSegment: the buffer position of segment `index`, which is the
      buffer start plus the table entry. The entry is read from the buffer at
      16 + index * width. A 64-bit entry equal to (size_t)-1 is refused; the position
      is not checked against the end of the buffer. */
  function GetSegment(m: Module, h: ModuleHeader, index: byte): (r: Result<nat, Error>)
    requires SegTableInBuffer(m.data, h)
    ensures r == Failure(IndexOutOfRange) <==> index >= h.segCounts
    ensures r == Failure(OffsetOutOfRange) <==>
              index < h.segCounts && SegmentEntry(m.data, h, index) == UINT64_MAX
    ensures r.Success? ==> r.value == SegmentEntry(m.data, h, index)
  {
    if h.segCounts <= index then Failure(IndexOutOfRange)
    else
      var mode := h.byteMode;
      var at := SizeMul(index, GetOffsetByCount(mode, 1)) + SEG_TABLE_AT;
      EntryInBuffer(m.data, h, index);
      assert at == EntryAt(mode, index);
      assert m.data[at..][..Width(mode)] == m.data[at..at + Width(mode)];
      var entry := ReadFromMemory(mode, m.data[at..], Offset(0)).value;
      ViewFitsWidth(mode, entry);
      Pow256Values();
      var size := AsSize(Host64, ToSizeT(Host64, mode, entry));
      if size == UINT64_MAX then Failure(OffsetOutOfRange)
      else Success(size)
  }

  /** Reference reading of table entry `index`: the little-endian value of its bytes. */
  function SegmentEntry(data: seq<byte>, h: ModuleHeader, index: nat): nat
    requires SegTableInBuffer(data, h)
    requires index < h.segCounts
  {
    EntryInBuffer(data, h, index);
    var at := EntryAt(h.byteMode, index);
    DecodeLE(data[at..at + Width(h.byteMode)])
  }

  /** A 32-bit table entry never equals the sentinel, so in byte mode 0 every index
      below seg_counts resolves. */
  lemma NarrowSegmentsResolve(m: Module, h: ModuleHeader, index: byte)
    requires SegTableInBuffer(m.data, h)
    requires h.byteMode == 0 && index < h.segCounts
    ensures GetSegment(m, h, index).Success?
  {
    Pow256Values();
  }

  /** The smallest accepted module: a 16-byte header with no segments. */
  const EMPTY_MODULE: seq<byte> := MAGIC + [0, 0, 0, 0] + [0, 0, 0, 0] + [0, 0] + [0, 0]

  lemma EmptyModuleScenario(index: byte)
    ensures ParseHeader(EMPTY_MODULE).Success?
    ensures ParseHeader(EMPTY_MODULE).value.segCounts == 0
    ensures GetSegment(Module(EMPTY_MODULE, 0), ParseHeader(EMPTY_MODULE).value, index) == Failure(IndexOutOfRange)
  {
    assert EMPTY_MODULE[..4] == MAGIC;
    assert EMPTY_MODULE[4..8] == [0, 0, 0, 0];
    DecodeZeros(EMPTY_MODULE[4..8]);
  }

  lemma ZeroMagicByteScenario()
    ensures ParseHeader(MAGIC[..3] + [0] + EMPTY_MODULE[4..]) == Failure(BadMagic)
  {
    var data := MAGIC[..3] + [0] + EMPTY_MODULE[4..];
    AnyMagicByteMatters(data, 3);
  }

  lemma WideEntryOverflowScenario()
    ensures ParseHeader(EMPTY_MODULE[..12] + [1, 1, 0, 0] + [0, 0, 0, 0]) == Failure(TableOverflowsBuffer)
  {
    var data := EMPTY_MODULE[..12] + [1, 1, 0, 0] + [0, 0, 0, 0];
    assert |data| == 20;
    assert data[BYTE_MODE_AT] == 1 && data[SEG_COUNTS_AT] == 1;
  }

  /** The end of the bytes that the dereference in CPModuleParser_GetSegment touches for
      entry `index` as the code is written: it loads a whole 8-byte cpoffset_t whatever
      the byte mode, so in byte mode 0 it reads 4 bytes beyond the 4-byte entry. */
  function UnionReadEnd(mode: byte, index: nat): nat
    requires ValidMode(mode)
  {
    EntryAt(mode, index) + 8
  }

  /** As written, the last entry of an accepted byte-mode-0 module whose table ends at the
      buffer end is loaded 4 bytes past the end of the buffer, while the entry itself
      (the width-sized read that GetSegment models) ends exactly there. */
  lemma {:induction false} UnionReadOverruns(data: seq<byte>)
    requires ParseHeader(data).Success?
    requires data[BYTE_MODE_AT] == 0 && data[SEG_COUNTS_AT] >= 1
    requires |data| == SegTableEnd(0, data[SEG_COUNTS_AT])
    ensures EntryAt(0, data[SEG_COUNTS_AT] - 1) + Width(0) == |data|
    ensures UnionReadEnd(0, data[SEG_COUNTS_AT] - 1) == |data| + 4
  {
    var c := data[SEG_COUNTS_AT] as nat;
    assert c * 4 == (c - 1) * 4 + 4;
  }

  /** A 20-byte byte-mode-0 module with one segment is accepted; the 8-byte load of its
      entry ends at 24, past the buffer, while the 4-byte entry read resolves to 0. */
  lemma NarrowEntryOverreadScenario()
    ensures var data := MAGIC + [0, 0, 0, 0] + [0, 0, 0, 0] + [0, 1, 0, 0] + [0, 0, 0, 0];
            && ParseHeader(data).Success?
            && ParseHeader(data).value.segCounts == 1
            && UnionReadEnd(0, 0) == 24 > |data|
            && GetSegment(Module(data, 0), ParseHeader(data).value, 0) == Success(0)
  {
    var data := MAGIC + [0, 0, 0, 0] + [0, 0, 0, 0] + [0, 1, 0, 0] + [0, 0, 0, 0];
    assert |data| == 20;
    assert data[..4] == MAGIC;
    assert data[4..8] == [0, 0, 0, 0];
    DecodeZeros(data[4..8]);
    assert data[BYTE_MODE_AT] == 0 && data[SEG_COUNTS_AT] == 1;
    assert data[16..20] == [0, 0, 0, 0];
    DecodeZeros(data[16..20]);
    UnionReadOverruns(data);
  }
}
