/** The string table of a module (src/module_parser/stringtab.c, stringtab.h): segment 2
    holds a u32 string count, padding to 8 bytes, then one offset per string. Each
    string offset counts from the end of that offset array. */
module StringTab {
  import opened Wrappers
  import opened Bytes
  import opened CPOffset
  import opened Header

  /** CPMODULE_STRING_TABLE_INDEX. */
  const STRING_TABLE_INDEX: byte := 2
  /** sizeof(CPModuleStringTable): a u32 count padded to the 8-byte alignment of the offset union. */
  const PREFIX: nat := 8
  const COUNT_SIZE: nat := 4

  /** CPModuleStringTable: where the table starts in the buffer and how many strings it lists.
      The offset array itself stays in the buffer. */
  datatype StringTable = StringTable(start: nat, stringCount: u32)

  /** get_stringtab_size: bytes of the prefix plus the offset array, computed in size_t. */
  function StringTabSize(mode: byte, count: u32): (r: nat)
    requires ValidMode(mode)
    ensures r == PREFIX + Width(mode) * count
  {
    SizeAdd(PREFIX, SizeMul(GetOffsetByCount(mode, 1), count))
  }

  /** The table's prefix and whole offset array lie in the buffer, and its count is the
      u32 stored at its start. */
  predicate TableInBuffer(m: Module, t: StringTable) {
    && ValidMode(m.byteMode)
    && t.start + PREFIX + Width(m.byteMode) * t.stringCount <= |m.data|
    && t.stringCount == DecodeLE(m.data[t.start..t.start + COUNT_SIZE])
  }

  /** The string count stored at a segment start that leaves room for the prefix. */
  function CountAt(m: Module, seg: nat): (c: u32)
    requires seg + PREFIX <= |m.data|
  {
    Pow256Values();
    DecodeLE(m.data[seg..seg + COUNT_SIZE])
  }

  /** CPModule_ParseStringTable: resolves segment 2, then checks that the prefix and then
      the whole offset array fit before the end of the buffer. */
  function ParseStringTable(m: Module, h: ModuleHeader): (r: Result<StringTable, Error>)
    requires Loaded(m, h)
    ensures GetSegment(m, h, STRING_TABLE_INDEX).Failure? ==>
              r == Failure(GetSegment(m, h, STRING_TABLE_INDEX).error)
    ensures r.Success? <==>
              && GetSegment(m, h, STRING_TABLE_INDEX).Success?
              && var seg := GetSegment(m, h, STRING_TABLE_INDEX).value;
                 seg + PREFIX <= |m.data| && seg + PREFIX + Width(m.byteMode) * CountAt(m, seg) <= |m.data|
    ensures r.Success? ==> r.value.start == GetSegment(m, h, STRING_TABLE_INDEX).value
    ensures r.Success? ==> TableInBuffer(m, r.value)
  {
    var seg :- GetSegment(m, h, STRING_TABLE_INDEX);
    if seg + PREFIX > |m.data| then Failure(TableOverflowsBuffer)
    else
      var count := CountAt(m, seg);
      if seg + StringTabSize(m.byteMode, count) > |m.data| then Failure(TableOverflowsBuffer)
      else Success(StringTable(seg, count))
  }

  /** Position of the offset slot of string `index`. */
  function SlotAt(m: Module, t: StringTable, index: nat): nat
    requires ValidMode(m.byteMode)
  {
    t.start + PREFIX + Width(m.byteMode) * index
  }

  /** Every slot below the count lies inside the validated table, hence inside the buffer. */
  lemma SlotInTable(m: Module, t: StringTable, index: nat)
    requires TableInBuffer(m, t)
    requires index < t.stringCount
    ensures SlotAt(m, t, index) + Width(m.byteMode) <= t.start + StringTabSize(m.byteMode, t.stringCount)
    ensures SlotAt(m, t, index) + Width(m.byteMode) <= |m.data|
  {
    var w := Width(m.byteMode);
    assert w * (index + 1) <= w * t.stringCount;
  }

  /** Reference reading of slot `index`: the little-endian value of its bytes. */
  function Slot(m: Module, t: StringTable, index: nat): nat
    requires TableInBuffer(m, t)
    requires index < t.stringCount
  {
    SlotInTable(m, t, index);
    var at := SlotAt(m, t, index);
    DecodeLE(m.data[at..at + Width(m.byteMode)])
  }

  /** Where the strings begin: right after the offset array. */
  function StringsStart(m: Module, t: StringTable): nat
    requires ValidMode(m.byteMode)
  {
    t.start + PREFIX + Width(m.byteMode) * t.stringCount
  }

  /** CPModule_GetStringFromStringTable: the buffer position where string `index` starts,
      the end of the offset array plus the slot value. A slot equal to (size_t)-1 is
      refused; neither the start nor the end of the string is checked against the buffer. */
  function GetString(m: Module, t: StringTable, index: u32): (r: Result<nat, Error>)
    requires TableInBuffer(m, t)
    ensures r == Failure(IndexOutOfRange) <==> index >= t.stringCount
    ensures r == Failure(OffsetOutOfRange) <==> index < t.stringCount && Slot(m, t, index) == UINT64_MAX
    ensures r.Success? ==> r.value == StringsStart(m, t) + Slot(m, t, index)
  {
    if index >= t.stringCount then Failure(IndexOutOfRange)
    else
      var mode := m.byteMode;
      var size := StringTabSize(mode, t.stringCount);
      var slotOffset := SizeAdd(PREFIX, SizeMul(GetOffsetByCount(mode, 1), index));
      SlotInTable(m, t, index);
      var at := t.start + slotOffset;
      assert at == SlotAt(m, t, index);
      assert m.data[at..][..Width(mode)] == m.data[at..at + Width(mode)];
      var slot := ReadFromMemory(mode, m.data[at..], Offset(0)).value;
      ViewFitsWidth(mode, slot);
      Pow256Values();
      var value := AsSize(Host64, ToSizeT(Host64, mode, slot));
      if value == UINT64_MAX then Failure(OffsetOutOfRange)
      else Success(t.start + size + value)
  }

  /** A 32-bit module with three segments whose string table, at byte 28, lists one string
      at relative offset 1000. */
  const SAMPLE: seq<byte> :=
    MAGIC + [0, 0, 0, 0] + [0, 0, 0, 0] + [0, 3, 0, 0]
    + [0, 0, 0, 0] + [0, 0, 0, 0] + [28, 0, 0, 0]
    + [1, 0, 0, 0] + [0, 0, 0, 0]
    + [0xE8, 0x03, 0, 0]

  lemma SampleHeader()
    ensures ParseHeader(SAMPLE) == Success(ModuleHeader(MAGIC, 0, 0, 0, 3, [0, 0]))
  {
    assert SAMPLE[..4] == MAGIC;
    DecodeLE4(SAMPLE[4..8]);
    DecodeLE4(SAMPLE[8..12]);
    assert Acceptable(SAMPLE);
    assert SAMPLE[8..12] == [0, 0, 0, 0];
    assert SAMPLE[14..16] == [0, 0];
    assert DecodeHeader(SAMPLE) == ModuleHeader(MAGIC, 0, 0, 0, 3, [0, 0]);
  }

  lemma SampleTable(h: ModuleHeader)
    requires h == ModuleHeader(MAGIC, 0, 0, 0, 3, [0, 0])
    ensures Loaded(Module(SAMPLE, 0), h)
    ensures ParseStringTable(Module(SAMPLE, 0), h) == Success(StringTable(28, 1))
  {
    var m := Module(SAMPLE, 0);
    DecodeLE4(SAMPLE[24..28]);
    assert SegmentEntry(SAMPLE, h, 2) == 28;
    DecodeLE4(SAMPLE[28..32]);
    assert CountAt(m, 28) == 1;
  }

  /** The string start is not bounded by the buffer: in a 40-byte module, string 0 of a
      valid table resolves to position 1040. */
  lemma StringStartNotBounded()
    ensures ParseHeader(SAMPLE).Success?
    ensures ParseStringTable(Module(SAMPLE, 0), ParseHeader(SAMPLE).value) == Success(StringTable(28, 1))
    ensures GetString(Module(SAMPLE, 0), StringTable(28, 1), 0) == Success(1040)
    ensures 1040 > |SAMPLE|
  {
    SampleHeader();
    SampleTable(ParseHeader(SAMPLE).value);
    var m := Module(SAMPLE, 0);
    var t := StringTable(28, 1);
    DecodeLE4(SAMPLE[36..40]);
    assert Slot(m, t, 0) == 1000;
  }

  /** The two bounds tests of CPModule_ParseStringTable as written on a 64-bit host, for a
      buffer of `size` bytes at address `base`: the table address base + seg and both sums
      are uintptr_t values that wrap modulo 2^64, and they are compared only with the
      buffer's end address. `count` is the u32 loaded from the table address. */
  predicate TableTestsPassAsWritten(base: nat, size: nat, mode: byte, seg: nat, count: u32)
    requires ValidMode(mode)
  {
    var addr := SizeAdd(base, seg);
    && SizeAdd(addr, PREFIX) <= base + size
    && SizeAdd(addr, StringTabSize(mode, count)) <= base + size
  }

  /** Where no uintptr_t sum wraps, the tests as written accept exactly the tables the
      model accepts; in particular every table the model accepts passes them, and a
      table whose prefix runs past the buffer fails both, whatever count it holds. */
  lemma TableTestsAgreeWithoutWrap(m: Module, h: ModuleHeader, base: nat)
    requires Loaded(m, h)
    requires base + |m.data| <= UINT64_MAX
    ensures ParseStringTable(m, h).Success? ==>
              var seg := ParseStringTable(m, h).value.start;
              TableTestsPassAsWritten(base, |m.data|, m.byteMode, seg, CountAt(m, seg))
    ensures GetSegment(m, h, STRING_TABLE_INDEX).Success? ==>
              var seg := GetSegment(m, h, STRING_TABLE_INDEX).value;
              seg + PREFIX <= |m.data| && base + seg + StringTabSize(m.byteMode, CountAt(m, seg)) <= UINT64_MAX ==>
                (TableTestsPassAsWritten(base, |m.data|, m.byteMode, seg, CountAt(m, seg)) <==> ParseStringTable(m, h).Success?)
    ensures GetSegment(m, h, STRING_TABLE_INDEX).Success? ==>
              var seg := GetSegment(m, h, STRING_TABLE_INDEX).value;
              seg + PREFIX > |m.data| && base + seg + PREFIX <= UINT64_MAX ==>
                && ParseStringTable(m, h).Failure?
                && forall count: u32 :: !TableTestsPassAsWritten(base, |m.data|, m.byteMode, seg, count)
  {
  }

  /** A 48-byte byte-mode-1 module with three segments whose segment 2 entry is 2^64 - 8. */
  const WRAPPING: seq<byte> :=
    MAGIC + [0, 0, 0, 0] + [0, 0, 0, 0] + [1, 3, 0, 0]
    + [0, 0, 0, 0, 0, 0, 0, 0] + [0, 0, 0, 0, 0, 0, 0, 0]
    + [0xF8, 0xFF, 0xFF, 0xFF, 0xFF, 0xFF, 0xFF, 0xFF]
    + [0, 0, 0, 0, 0, 0, 0, 0]

  /** The segment 2 entry of WRAPPING, 2^64 - 8, digit by digit. */
  lemma WrappingEntry()
    ensures DecodeLE(WRAPPING[32..40]) == UINT64_MAX - 7
  {
    var e := WRAPPING[32..40];
    assert e == [0xF8, 0xFF, 0xFF, 0xFF, 0xFF, 0xFF, 0xFF, 0xFF];
    assert DecodeLE(e[7..]) == 0xFF;
    assert DecodeLE(e[6..]) == 0xFFFF;
    assert DecodeLE(e[5..]) == 0xFF_FFFF;
    assert DecodeLE(e[4..]) == 0xFFFF_FFFF;
    assert DecodeLE(e[3..]) == 0xFF_FFFF_FFFF;
    assert DecodeLE(e[2..]) == 0xFFFF_FFFF_FFFF;
    assert DecodeLE(e[1..]) == 0xFF_FFFF_FFFF_FFFF;
  }

  /** WRAPPING has an acceptable header: byte mode 1, three segments, a table ending at 40. */
  lemma WrappingHeader()
    ensures ParseHeader(WRAPPING).Success?
    ensures ParseHeader(WRAPPING).value.byteMode == 1 && ParseHeader(WRAPPING).value.segCounts == 3
  {
    var data := WRAPPING;
    assert |data| == 48;
    assert data[..4] == MAGIC;
    assert data[4..8] == [0, 0, 0, 0];
    DecodeZeros(data[4..8]);
    assert data[BYTE_MODE_AT] == 1 && data[SEG_COUNTS_AT] == 3;
  }

  /** As written, segment 2 of WRAPPING lies 8 bytes before the buffer: with the buffer at
      any address from 8 up, base + entry wraps to base - 8, and both tests pass whenever
      the count loaded from there is at most 6, so the table header is read from outside
      the buffer. The model refuses the table. */
  lemma WrappedSegmentPassesAsWritten(base: nat, count: u32)
    requires 8 <= base && base + |WRAPPING| <= UINT64_MAX
    ensures ParseHeader(WRAPPING).Success?
    ensures GetSegment(Module(WRAPPING, 1), ParseHeader(WRAPPING).value, STRING_TABLE_INDEX)
              == Success(UINT64_MAX - 7)
    ensures SizeAdd(base, UINT64_MAX - 7) == base - 8
    ensures count <= 6 ==> TableTestsPassAsWritten(base, |WRAPPING|, 1, UINT64_MAX - 7, count)
    ensures ParseStringTable(Module(WRAPPING, 1), ParseHeader(WRAPPING).value) == Failure(TableOverflowsBuffer)
  {
    WrappingHeader();
    WrappingEntry();
    var h := ParseHeader(WRAPPING).value;
    assert SegmentEntry(WRAPPING, h, 2) == UINT64_MAX - 7;
  }
}
