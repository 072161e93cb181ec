# cp: module reader, path helpers and argument consumer in Dafny

This project models three sequential parts of the `cp` interpreter and proves properties of them.

1. **Module-format reader** (`src/module_parser/`):
   - `cpoffset_t`, the dual-width offset. Its width, 32 or 64 bits, is chosen by a module's byte mode.
   - Validation of the 16-byte module header.
   - Resolution of a segment index to a buffer position.
   - The string table, which is segment 2: a u32 count, padding to 8 bytes, and one offset per string.

   A module is a `seq<byte>`, and positions are `nat`s counted from the buffer start. Multi-byte fields are decoded explicitly as little-endian.
2. **Bounded string helpers and paths** (`src/safe_string.c`, `src/path.c`, POSIX branch). Strings are `seq<char>` without the terminating NUL. One Dafny `char` stands for one C `char`, that is one byte, and a string holds no NUL, because `strlen` would stop there. `|s|` is therefore `strlen(s)`, and `CP_MAX_PATH` and every `dst_size` count bytes. Each helper returns its status code together with the destination's contents after the call.
3. **Argument consumer** (`src/parsearg.c`). The global `cp_argv[0..cp_argc)` becomes a `seq<string>`. Each operation returns its result together with the list it leaves behind.

Modules:

| module | file | contents |
|---|---|---|
| `Wrappers` | wrappers.dfy | `Option`, `Result` |
| `Bytes` | bytes.dfy | bytes and little-endian encode/decode |
| `CPOffset` | cpoffset.dfy | `cpoffset_t` and its helpers |
| `Header` | header.dfy | header layout and validation, segment lookup |
| `StringTab` | stringtab.dfy | string table |
| `SafeString` | safe_string.dfy | `str*_safe` helpers |
| `Path` | path.dfy | path helpers |
| `ParseArg` | parsearg.dfy | argument consumer |

The header and string-table functions collapse every failure into `-1` or `NULL`; the `CPOffset_*` conversion and memory helpers return `-2` for an invalid byte mode, apart from their `-1`, and `CP_ParseOptionEx` returns `-2` when more than `valuec` values arrive. The module reader's model keeps the reason instead, as a `Header.Error` or `CPOffset.OffsetError`; `OffsetError.Code()` recovers the C integer.

## Model

| member | source | states |
|---|---|---|
| Bytes.DecodeLE | src/module_parser/cpoffset.c:83-94 | the value read from an n-byte field is below 256^n |
| Bytes.EncodeLE | src/module_parser/cpoffset.c:103-114 | storing a value that fits n bytes produces exactly n bytes |
| Bytes.DecodeEncode | src/module_parser/cpoffset.c:100-118 | reading back stored bytes gives the value that was stored |
| Bytes.EncodeDecode | src/module_parser/cpoffset.c:80-98 | re-storing the value read from n bytes reproduces those bytes |
| CPOffset.AsSSize | src/module_parser/cpoffset.c:27-29 | the (ssize_t) cast keeps values up to SSIZE_MAX and makes larger ones negative, staying within the ssize_t range |
| CPOffset.AsSize | src/module_parser/header.c:53 | assigning the ssize_t result to a size_t lands in [0, SIZE_MAX] and keeps every non-negative value that fits |
| CPOffset.AsSizeOfAsSSize | src/module_parser/header.c:53-54 | every size_t value survives the round trip through ssize_t and back, so the caller's comparison with (size_t)-1 sees the original value |
| CPOffset.SizeMul | src/module_parser/cpoffset.c:124-126 | size_t multiplication stays below 2^64 and is exact when there is no overflow |
| CPOffset.SizeAdd | src/module_parser/header.c:20-22 | size_t addition stays below 2^64 and is exact when there is no overflow |
| CPOffset.IsValidByteMode | src/module_parser/cpoffset.c:16-20 | returns 1 exactly when the mode is 0 or 1, and 0 exactly otherwise |
| CPOffset.WidthIsMemberSize | src/module_parser/cpoffset.c:123-126 | the width of a mode is GetOffsetByCount for one offset, and its bytes hold exactly 2^32 values in mode 0 and 2^64 in mode 1: the range of the `o32` or `o64` member the mode selects |
| CPOffset.ViewFitsWidth | src/module_parser/cpoffset.c:83-93 | the member a mode selects always fits in that mode's width |
| CPOffset.GetOffsetByCount | src/module_parser/cpoffset.c:120-130 | gives count*4 in mode 0 and count*8 in mode 1 when nothing overflows, and (size_t)-1 for any other mode |
| CPOffset.ToSizeT | src/module_parser/cpoffset.c:22-47 | returns -2 for an invalid mode. Otherwise it returns the selected member exactly (as size_t even above SSIZE_MAX). On a 32-bit host, a 64-bit value above UINT32_MAX gives -1 |
| CPOffset.FromSizeT | src/module_parser/cpoffset.c:49-78 | fails with -2 exactly for an invalid mode. On a 64-bit host it fails with -1 exactly when mode 0 gets a value above UINT32_MAX. Otherwise the selected member equals the value, and mode 0 leaves the upper half of the union alone |
| CPOffset.SizeRoundTrip | src/module_parser/cpoffset.c:22-78 | a value that fits the mode's width survives FromSize_T followed by ToSizeT |
| CPOffset.ReadFromMemory | src/module_parser/cpoffset.c:80-98 | -2 exactly for an invalid mode, and -1 exactly when the buffer is shorter than the width. Otherwise the member is the little-endian value of the first width bytes |
| CPOffset.WriteToMemory | src/module_parser/cpoffset.c:100-118 | same error cases as the read. On success the buffer keeps its length and every byte past the width is unchanged |
| CPOffset.ReadUsesOnlyWidth | src/module_parser/cpoffset.c:83-94 | two buffers that agree on their first width bytes read the same offset |
| CPOffset.WriteThenRead | src/module_parser/cpoffset.c:80-118 | writing an offset and reading it back with the same mode gives the same member |
| CPOffset.ReadThenWrite | src/module_parser/cpoffset.c:80-118 | writing back an offset just read leaves the buffer as it was |
| Header.DecodeHeader | src/module_parser/header.h:22-34 | the header read from the first 16 bytes has a 4-byte magic and 2 padding bytes |
| Header.EncodeHeader | src/module_parser/header.h:40-47 | a header occupies 16 bytes: magic at 0-3, major (u32) at 4, minor (u32) at 8, byte_mode at 12, seg_counts at 13, padding at 14-15 |
| Header.DecodeEncodeHeader | src/module_parser/header.h:22-34 | decoding an encoded header gives it back |
| Header.EncodeDecodeHeader | src/module_parser/header.h:40-47 | the 16 header bytes are exactly the fields; none is lost or overlapping |
| Header.SegTableEnd | src/module_parser/header.c:20-22 | for a valid mode, the segment table ends at 16 + width * seg_counts |
| Header.ParseHeader | src/module_parser/header.c:13-43 | a buffer under 16 bytes is rejected. Acceptance holds exactly when the mode is valid, the segment table fits, all 4 magic bytes match and major equals the required major. On success the header is the first 16 bytes and the whole table lies in the buffer |
| Header.AnyMagicByteMatters | src/module_parser/header.c:28-30 | any one differing magic byte, NUL or high byte included, causes rejection |
| Header.MinorIgnored | src/module_parser/header.c:31-38 | rewriting the minor version never changes acceptance |
| Header.EntryInBuffer | src/module_parser/header.c:51-52 | after a successful parse, the width-sized entry at 16 + index*width lies inside the buffer (corrected read; the C loads 8 bytes, see Header.UnionReadOverruns) |
| Header.UnionReadOverruns | src/module_parser/header.c:51-52 | as written: in byte mode 0, when the table ends at the buffer end, the 8-byte load of the last entry ends 4 bytes past the buffer, while the entry itself ends at the buffer end |
| Header.NarrowEntryOverreadScenario | src/module_parser/header.c:45-58 | the 20-byte mode-0 module with one zero entry is accepted; the C's 8-byte load ends at 24, the model's 4-byte read gives position 0 |
| Header.GetSegment | src/module_parser/header.c:45-58 | NULL exactly for index >= seg_counts, and NULL exactly when the entry is the (size_t)-1 sentinel. Otherwise the position is buffer start + entry value, unbounded by the buffer end |
| Header.NarrowSegmentsResolve | src/module_parser/header.c:53-56 | in mode 0 every index below seg_counts resolves, since a 32-bit entry is never the sentinel |
| Header.EmptyModuleScenario | src/module_parser/header.c:13-50 | a 16-byte header with no segments is accepted, and every segment index is out of range |
| Header.ZeroMagicByteScenario | src/module_parser/header.c:28-30 | a NUL in place of the last magic byte is rejected |
| Header.WideEntryOverflowScenario | src/module_parser/header.c:20-24 | a 64-bit header with one segment in a 20-byte buffer is rejected because its table does not fit |
| StringTab.StringTabSize | src/module_parser/stringtab.c:16-22 | the table size is PREFIX + width * string_count |
| StringTab.ParseStringTable | src/module_parser/stringtab.c:24-39 | corrected: failures to resolve segment 2 propagate. Success holds exactly when the prefix and then the whole offset array fit before the buffer end, positions never wrapping. The table then starts at the segment and lies in the buffer; the C's wrapping address tests give no such bound (see StringTab.WrappedSegmentPassesAsWritten) |
| StringTab.TableTestsAgreeWithoutWrap | src/module_parser/stringtab.c:31-37 | every table the model accepts passes the two uintptr_t tests as written. Where no sum wraps, the tests accept exactly the tables the model accepts: both reject when the 8-byte prefix runs past the buffer, whatever count lies there, and otherwise both accept exactly when the offset array fits |
| StringTab.WrappedSegmentPassesAsWritten | src/module_parser/stringtab.c:27-37 | as written: the 48-byte mode-1 module whose segment 2 entry is 2^64 - 8 is accepted by the header check, its table address wraps to 8 bytes before the buffer, and both tests pass for any buffer address from 8 up when the count loaded there is at most 6; the model refuses the table |
| StringTab.SlotInTable | src/module_parser/stringtab.c:47-51 | the slot of every index below the count lies in the validated table, hence in the buffer |
| StringTab.GetString | src/module_parser/stringtab.c:41-59 | NULL exactly for index >= string_count, and NULL exactly for a sentinel slot. Otherwise the position is table start + PREFIX + width*count + slot value |
| StringTab.SampleHeader | src/module_parser/header.c:13-43 | a 40-byte 32-bit module with three segments is accepted with the expected fields |
| StringTab.SampleTable | src/module_parser/stringtab.c:24-39 | the table of that module is found at byte 28 with one string |
| StringTab.StringStartNotBounded | src/module_parser/stringtab.c:54-58 | in that 40-byte module, string 0 resolves to position 1040: the start is never checked against the buffer |
| SafeString.Snprintf | src/safe_string.c:21-24 | snprintf returns the full length, writes the whole string when it fits, and otherwise writes fewer than size characters |
| SafeString.StrcatSafe | src/safe_string.c:13-26 | -1 exactly when old + src + NUL exceeds dst_size, with dst untouched. Otherwise 0, dst = old ++ src, and it fits |
| SafeString.StrcpySafe | src/safe_string.c:28-40 | -1 exactly when src + NUL exceeds dst_size, with dst untouched. Otherwise 0, dst = src, and it fits |
| SafeString.StrncatSafe | src/safe_string.c:42-58 | n is clamped to the source length. -1 exactly when old + n' + NUL exceeds dst_size, with dst untouched. Otherwise dst = old ++ src[..n'] |
| SafeString.StrncpySafe | src/safe_string.c:60-75 | n is clamped to the source length. -1 exactly when n' + NUL exceeds dst_size, with dst untouched. Otherwise dst = src[..n'] |
| SafeString.CopyIsCatOntoEmpty | src/safe_string.c:13-40 | copying succeeds exactly when appending to an empty string does, with the same contents |
| SafeString.BoundBeyondLength | src/safe_string.c:42-75 | with n at least the source length, the n variants behave as the unbounded ones |
| Path.RemoveEndSep | src/path.c:28-34 | removes at most one character, and only a trailing '/' |
| Path.IsAbsolute | src/path.c:36-46 | true exactly for a non-empty path starting with '/' |
| Path.LastSep | src/path.c:125-136 | the backward scan finds the last '/': nothing after it is a separator, and it finds none exactly when the path holds no '/' |
| Path.Join | src/path.c:80-92 | an absolute src2 fails without writing. Success holds exactly when every copy and append fits CP_MAX_PATH, and then the result is strip(strip(src1) ++ "/" ++ src2) |
| Path.JoinInPlace | src/path.c:94-105 | fails on an absolute src. Success holds exactly when both appends fit, and the result is strip(strip(dst) ++ "/" ++ src) |
| Path.JoinInPlaceIsJoin | src/path.c:94-105 | joining in place equals Join(dst, dst, src) |
| Path.Filename | src/path.c:107-119 | the result has no '/' and is the suffix after a separator or the start. It fails exactly when the last component does not fit |
| Path.Truncate | src/path.c:132 | writing NUL at i leaves a prefix of the string of length min(i, strlen) |
| Path.DirnameAsWritten | src/path.c:121-139 | as written: "" without a separator and "/" for a leading one. A last separator at index 1..CP_MAX_PATH fails with dst untouched. One beyond CP_MAX_PATH copies CP_MAX_PATH characters |
| Path.Dirname | src/path.c:121-139 | corrected: succeeds exactly when the directory part fits, and returns the prefix before the last '/', "/" for a leading one, or "" |
| Path.DirnameSwappedArguments | src/path.c:131 | "/usr/bin/cp" fails as written and gives "/usr/bin" corrected |
| Path.SplitThenJoin | src/path.c:80-139 | joining the corrected Dirname and the Filename of a path ending in a non-empty component gives the path back |
| Path.LastSepOfSuffix | src/path.c:125-136 | in d ++ "/" ++ f with f separator-free, the last separator is the one before f |
| ParseArg.Remove | src/parsearg.c:16-23 | removal drops one element; elements before i stay put and those after shift down by one |
| ParseArg.Pop | src/parsearg.c:16-23 | the shifting loop removes exactly element i, keeps the order of the others and shortens the list by one |
| ParseArg.AssertNoMoreArgs | src/parsearg.c:25-33 | returns 0 exactly when the list is empty, -1 otherwise |
| ParseArg.ParseOneArg | src/parsearg.c:35-45 | NULL with the list unchanged when empty; otherwise the head, leaving the tail |
| ParseArg.FirstIndex | src/parsearg.c:66-67 | finds the first flag equal to an argument, and none exactly when it is not a flag |
| ParseArg.FirstIn | src/parsearg.c:65-67 | finds the first argument that is any of the flags, and none exactly when no argument is |
| ParseArg.ParseFlagFrom | src/parsearg.c:51-57 | the loop from a point with no earlier match returns 1 exactly when the flag occurs, removing its first occurrence |
| ParseArg.ParseFlag | src/parsearg.c:47-58 | returns 1 exactly when the flag occurs, removing its first occurrence; otherwise 0 with the list unchanged |
| ParseArg.InnerAfterMatch | src/parsearg.c:66-77 | once a flag was taken, the inner loop returns -1 exactly when its slot equals a remaining flag |
| ParseArg.OuterAfterMatch | src/parsearg.c:65-79 | once a flag was taken, the search returns -1 exactly when a later argument is a flag |
| ParseArg.InnerBeforeMatch | src/parsearg.c:66-76 | before a flag was taken, the inner loop removes its slot at the first flag it equals, then continues on the shifted slot i-1 |
| ParseArg.FlagExOuter | src/parsearg.c:65-79 | outer loop of CP_ParseFlagEx from slot i: the result is -1 or a flag index, nothing is removed once a flag was found, and at most one argument is removed. Its outcome is characterised by OuterBeforeMatch and OuterAfterMatch |
| ParseArg.FlagExInner | src/parsearg.c:66-78 | inner loop over flags[j..] at slot i, including the read of slot -1 after a removal at 0: same range and removal bounds as FlagExOuter. Characterised by InnerBeforeMatch and InnerAfterMatch |
| ParseArg.OuterBeforeMatch | src/parsearg.c:60-80 | the double loop computes the reference outcome FlagExSpec |
| ParseArg.ParseFlagEx | src/parsearg.c:60-80 | as written: removes the first argument that is a flag and returns that flag's index. It returns -1 if a later argument is a flag too, or if the match was at index 0 and argv[0] equals a later flag |
| ParseArg.FlagExWhenProgramNameIsNoFlag | src/parsearg.c:60-80 | when argv[0] is no flag, the first matching argument is removed and the result is -1 exactly when another argument is a flag |
| ParseArg.FlagExProgramNameConflict | src/parsearg.c:66-76 | a leading flag followed in the flag list by the program name is removed and reported as -1 |
| ParseArg.FixedAfterMatch | src/parsearg.c:65-79 | corrected loop: once a flag was taken, -1 exactly when a later argument is a flag |
| ParseArg.FixedBeforeMatch | src/parsearg.c:60-80 | the corrected loop computes the intended outcome FlagExIntended |
| ParseArg.FixedFlagExFrom | src/parsearg.c:60-80 | corrected loop from slot i: the result is -1 or a flag index, slots before i are untouched, nothing is removed once a flag was found, and at most one argument is removed. Characterised by FixedBeforeMatch and FixedAfterMatch |
| ParseArg.FixedParseFlagEx | src/parsearg.c:60-80 | corrected: removes the first matching argument and returns its flag index, or -1 when another argument is a flag |
| ParseArg.FlagExAsWrittenVersusIntended | src/parsearg.c:60-80 | both versions leave the same list; their results agree whenever argv[0] is not a flag |
| ParseArg.FlagExReadsProgramName | src/parsearg.c:67-74 | for program "cp" with flags "-a", "cp" on `cp -a`: -1 as written, 0 corrected |
| ParseArg.TakeValue | src/parsearg.c:90-113 | "optVAL" and "opt=VAL" yield VAL using one argument, and "opt" VAL yields VAL using two. The value is missing exactly for "opt=" or a trailing "opt" |
| ParseArg.Consume | src/parsearg.c:100-108 | one or two pops at the same index drop exactly those elements |
| ParseArg.FirstWithPrefix | src/parsearg.c:88-90 | finds the first argument beginning with the option, and none exactly when no argument does |
| ParseArg.TakeOption | src/parsearg.c:90-113 | at a matching argument k: NULL with the list unchanged exactly for "opt=" or a trailing "opt"; "optVAL" (VAL not starting with '=') and "opt=VAL" remove one element, "opt" VAL removes two |
| ParseArg.ParseOptionFrom | src/parsearg.c:88-116 | the loop acts on the first argument beginning with the option |
| ParseArg.ParseOption | src/parsearg.c:82-117 | the four forms at the first argument beginning with the option: one element removed for "optVAL" (VAL not starting with '=') and "opt=VAL" (VAL non-empty), two for "opt" VAL, and NULL with no removal for "opt=" or a trailing "opt" |
| ParseArg.OptionExLoop | src/parsearg.c:119-158 | a non-negative return is the number of stored values, which is at most valuec (or 0); the only other returns are -1 and -2 |
| ParseArg.TakeValueShift | src/parsearg.c:90-108 | extracting a value depends only on the matched argument and the one after it |
| ParseArg.LoopPassesOver | src/parsearg.c:124-126 | an argument not beginning with the option is passed over, and the loop continues at the next index |
| ParseArg.LoopStopsAtMatch | src/parsearg.c:130-148 | at a match with a missing value (-1), or with valuec values already stored (-2 after the removal), the loop ends as the reference does |
| ParseArg.LoopStoresValue | src/parsearg.c:136-151 | after a stored value, the loop continues at i + 1 in the list without the option and its value |
| ParseArg.StoredValueIsRef | src/parsearg.c:136-151 | in the storing case the loop matches the reference, which passes over the argument that slid into the slot |
| ParseArg.OptionExLoopIsRef | src/parsearg.c:124-151 | the index loop equals the one-pass reference, in which the argument after each removal is passed over unexamined |
| ParseArg.ParseOptionEx | src/parsearg.c:119-158 | as written: the one-pass reference outcome. Values are kept in order; -1 for a missing value; -2 after the occurrence was removed; otherwise count = number of values <= valuec |
| ParseArg.OptionExSkipsSlidIn | src/parsearg.c:136-140 | after removing "opt=VAL", the next argument is never examined and stays, even if it is another occurrence |
| ParseArg.FixedOptionExLoop | src/parsearg.c:119-158 | corrected loop: on success, no argument beginning with the option remains |
| ParseArg.FixedOptionExIsIntended | src/parsearg.c:119-158 | the corrected index loop equals the one-pass intended outcome, which examines every argument |
| ParseArg.FixedParseOptionEx | src/parsearg.c:119-158 | corrected: the intended outcome; on success count = number of values and no occurrence is left |
| ParseArg.OptionExSkipsSecondOccurrence | src/parsearg.c:124-140 | "-o=a" "-o=b" with valuec 2: count 1 leaving "-o=b" as written, count 2 with both values corrected |

## Left out

- Memory mapping, the front ends and error reporting are not modelled: they are OS calls, `printf`, `getenv` and `exit`. The same goes for `CPath_Getcwd` and `CPath_Setcwd`, which are system calls, and for every `_WIN32` branch (volume letters, backslash separator).
- The symbol and type headers hold record layouts without operations, so they are not modelled. Version and export macros are left out for the same reason.
- Native byte order, unaligned pointer casts and packed-struct attributes become explicit little-endian decoding at fixed positions.
- Only `ToSizeT` and `FromSizeT` take the host's `size_t` width as a parameter. Everything else assumes the 64-bit host.
- The C of the module reader does not compile as written, so the model follows its evident intent wherever it does not:
  - `CPOffset_GetSizeByByteMode` is undefined; it is modelled as `GetOffsetByCount(mode, 1)`.
  - src/module_parser/stringtab.c:20,49,51,54 pass `module`, a `CPModule *`, where a `uint8_t byte_mode` is expected; the model passes the module's byte mode.
  - src/module_parser/cpoffset.h:23 declares `CPOffset_ToSize_T`, but src/module_parser/cpoffset.c:23 defines `CPOffset_ToSizeT`; they are one function, `ToSizeT`.
  - The `CPModule_*` and `CPModuleParser_*` names disagree; they are treated as one function each.
  - The three-argument `CPOffset_ReadFromMemory` call passes the rest of the buffer as its region.
  - `module->data` is missing from `CPModule`; it is the buffer.
- Header.GetSegment: reads the table entry from the buffer itself, not through the caller's 16-byte copy of the header.
- Header.EntryInBuffer: bounds the mode's width of bytes, not the whole 8-byte union that src/module_parser/header.c:52 loads; the overrun of that load is a finding below.
- StringTab.GetString: reads slots from the buffer, not through the caller's copy of the table.
- Header.GetSegment: the segment position is buffer start + entry (src/module_parser/header.c:57); it is not compared with the buffer end.
- StringTab.GetString: the string start is table start + table size + entry (src/module_parser/stringtab.c:58); it is not compared with the buffer end.
- StringTab.ParseStringTable: the model compares unbounded positions and never wraps, so it does not promise what the C does when `(uintptr_t)seg` wraps. The C tests only an upper bound (src/module_parser/stringtab.c:31,35), so a mode-1 segment entry near 2^64 places the table before the buffer, and stringtab.c:34 then loads the table header from outside it. This is a finding below; the model rejects such tables.
- src/module_parser/header.c:28,31 compare with `CP_BYTECODE_MAGIC_NUMBER` and `CP_BYTECODE_VERSION_MAJOR`, whose definitions are not part of this model; they are fixed here as the bytes `63 70 6d 80` and 0.
- `PREFIX` (`sizeof(CPModuleStringTable)`) is 8 under natural alignment.
- SafeString.StrcatSafe: the `(int)` casts of sizes and of `n` are not modelled, since every length is assumed below `INT_MAX`. The same holds for StrcpySafe, StrncatSafe and StrncpySafe. A negative return from `snprintf` (an encoding error) is not modelled either.
- NULL-argument checks in `path.c` are not modelled, because strings are values.
- `CP_MAX_PATH` is Linux's `PATH_MAX`, 4096.
- Path.DirnameAsWritten: for a last separator beyond index CP_MAX_PATH, the C writes CP_MAX_PATH characters plus a NUL and then a NUL at index i, past the end of the buffer. The model gives only the string contents.
- ParseArg.ParseFlagEx: the read of `cp_argv[-1]` is `argv[0]` because the front end sets `cp_argv = argv + 1` (src/main.c:122). The program name is therefore a parameter.

## Findings

| source | as written | input that shows it | evidently intended | confidence | as-written member | corrected member |
|---|---|---|---|---|---|---|
| src/path.c:131 | `strncpy_safe(dst, src, i, CP_MAX_PATH)` passes the separator index as `dst_size` and CP_MAX_PATH as `n` | "/usr/bin/cp" returns -1 | `strncpy_safe(dst, src, CP_MAX_PATH, i)`, giving "/usr/bin" | high, not executed | Path.DirnameAsWritten | Path.Dirname |
| src/module_parser/stringtab.c:31-35 | both bounds tests compare `(uintptr_t)seg + …` only with the buffer's end address; nothing tests `seg >= data` | a 48-byte mode-1 module, magic `63 70 6d 80`, major 0, minor 0, mode 1, 3 segments, entries 0, 0, 2^64 - 8, then 8 zero bytes: `seg` wraps to `data - 8`, both tests pass when the u32 there is at most 6, and stringtab.c:34 reads before the buffer | also require the table to start inside the buffer, `seg + PREFIX <= size` in offsets; the table is refused | medium, not executed | StringTab.WrappedSegmentPassesAsWritten | StringTab.ParseStringTable |
| src/parsearg.c:72-76 | after removing slot 0 and `i--`, the inner loop compares `cp_argv[-1]` (argv[0]) with the remaining flags | program "cp", flags "-a", "cp", command line `cp -a` returns -1 | leave the inner loop after a removal; returns 0 | medium, not executed | ParseArg.ParseFlagEx | ParseArg.FixedParseFlagEx |
| src/module_parser/header.c:52 | `*(cpoffset_t *)(seg_table + off)` loads the whole 8-byte union even in byte mode 0, where an entry is 4 bytes | the 20-byte mode-0 module `63 70 6d 80`, major 0, minor 0, mode 0, one segment, entry `00 00 00 00` is accepted, and the load of its entry reads bytes 16..24 | read only the mode's width (`CPOffset_ReadFromMemory`, as stringtab.c:51 does); gives position 0 | medium, not executed | Header.UnionReadOverruns | Header.GetSegment |
| src/parsearg.c:136-151 | after `pop(i)` the loop's `i++` skips the argument that slid into slot i | "-o=a" "-o=b" with valuec 2 returns 1 and leaves "-o=b" | re-examine slot i after a removal; returns 2 with "a", "b" | medium, not executed | ParseArg.ParseOptionEx | ParseArg.FixedParseOptionEx |

The discrepancies are shown by Path.DirnameSwappedArguments, Header.NarrowEntryOverreadScenario, StringTab.WrappedSegmentPassesAsWritten, ParseArg.FlagExReadsProgramName and ParseArg.OptionExSkipsSecondOccurrence.
