/** cpoffset_t, the dual-width offset of the module format (src/module_parser/cpoffset.c).
    An offset is 32 or 64 bits wide; which one is decided by the byte mode of the module
    that holds it (0 = 32-bit, 1 = 64-bit), never by the offset itself. */
module CPOffset {
  import opened Wrappers
  import opened Bytes

  const UINT32_MAX: nat := 0xFFFF_FFFF
  const UINT64_MAX: nat := 0xFFFF_FFFF_FFFF_FFFF
  const TWO_32: nat := 0x1_0000_0000

  type u32 = x: int | 0 <= x < 0x1_0000_0000
  type u64 = x: int | 0 <= x < 0x1_0000_0000_0000_0000

  /** The width of the host's size_t; the source selects a branch with `SIZE_MAX`. */
  datatype Host = Host32 | Host64

  function SizeMax(host: Host): nat {
    if host == Host64 then UINT64_MAX else UINT32_MAX
  }

  /** Largest value of the host's ssize_t. */
  function SSizeMax(host: Host): nat {
    if host == Host64 then 0x7FFF_FFFF_FFFF_FFFF else 0x7FFF_FFFF
  }

  /** Casting a size_t value to ssize_t: two's-complement reinterpretation. */
  function AsSSize(host: Host, v: nat): (s: int)
    requires v <= SizeMax(host)
    ensures -(SSizeMax(host) + 1) <= s <= SSizeMax(host)
    ensures v <= SSizeMax(host) ==> s == v
    ensures v > SSizeMax(host) ==> s < 0
  {
    if v <= SSizeMax(host) then v else v - (SizeMax(host) + 1)
  }

  /** Casting an integer to size_t: reduction modulo 2^width. */
  function AsSize(host: Host, s: int): (v: nat)
    ensures v <= SizeMax(host)
    ensures 0 <= s <= SizeMax(host) ==> v == s
  {
    s % (SizeMax(host) + 1)
  }

  /** A size_t value survives the round trip through ssize_t and back. */
  lemma AsSizeOfAsSSize(host: Host, v: nat)
    requires v <= SizeMax(host)
    ensures AsSize(host, AsSSize(host, v)) == v
  {
    var m := SizeMax(host) + 1;
    if v > SSizeMax(host) {
      assert AsSSize(host, v) == v - m;
      assert (v - m) % m == v;
    }
  }

  /** Multiplication in size_t on the 64-bit host, wrapping modulo 2^64. */
  function SizeMul(a: nat, b: nat): (r: nat)
    ensures r <= UINT64_MAX
    ensures a * b <= UINT64_MAX ==> r == a * b
  {
    (a * b) % (UINT64_MAX + 1)
  }

  /** Addition in size_t on the 64-bit host, wrapping modulo 2^64. */
  function SizeAdd(a: nat, b: nat): (r: nat)
    ensures r <= UINT64_MAX
    ensures a + b <= UINT64_MAX ==> r == a + b
  {
    (a + b) % (UINT64_MAX + 1)
  }

  /** The union `{ uint32_t o32; uint64_t o64; }`. With little-endian storage the o32 member
      is the low half of o64, so one 64-bit value represents both members. */
  datatype Offset = Offset(raw: u64) {

    function O32(): (v: nat)
      ensures v <= UINT32_MAX
    {
      raw % TWO_32
    }

    function O64(): nat {
      raw
    }

    /** The upper four bytes, which an assignment to o32 leaves alone. */
    function High(): nat {
      raw / TWO_32
    }

    /** The union after `o32 = x`. */
    function WithO32(x: u32): (o: Offset)
      ensures o.O32() == x
      ensures o.High() == High()
    {
      var hi := raw / TWO_32;
      assert hi <= UINT32_MAX;
      assert hi * TWO_32 <= UINT32_MAX * TWO_32;
      Offset(hi * TWO_32 + x)
    }

    /** The member that byte mode `mode` selects. */
    function View(mode: byte): nat
      requires ValidMode(mode)
    {
      if mode == 0 then O32() else O64()
    }
  }

  /** Error returns of the offset helpers: -1 for a value or buffer that does not fit,
      -2 for a byte mode other than 0 and 1. */
  datatype OffsetError = OutOfRange | InvalidByteMode {
    function Code(): int {
      match this
      case OutOfRange => -1
      case InvalidByteMode => -2
    }
  }

  predicate ValidMode(mode: byte) {
    mode == 0 || mode == 1
  }

  /** CPOffset_IsValidByteMode as the C integer it returns. */
  function IsValidByteMode(mode: byte): (r: int)
    ensures r == 1 <==> ValidMode(mode)
    ensures r == 0 <==> !ValidMode(mode)
  {
    if mode == 0 || mode == 1 then 1 else 0
  }

  /** Number of bytes one offset occupies in a module of byte mode `mode`. */
  function Width(mode: byte): (w: nat)
    requires ValidMode(mode)
    ensures w == 4 || w == 8
    ensures w == 4 <==> mode == 0
  {
    if mode == 0 then 4 else 8
  }

  /** Every value of a mode's member fits in that mode's width. */
  lemma ViewFitsWidth(mode: byte, off: Offset)
    requires ValidMode(mode)
    ensures off.View(mode) < Pow256(Width(mode))
  {
    Pow256Values();
  }

  /** Size in bytes of `count` consecutive offsets, computed in size_t; (size_t)-1 for an invalid mode. */
  function GetOffsetByCount(mode: byte, count: nat): (r: nat)
    requires count <= UINT64_MAX
    ensures r <= UINT64_MAX
    ensures !ValidMode(mode) ==> r == UINT64_MAX
    ensures ValidMode(mode) && count * 8 <= UINT64_MAX ==> r == count * Width(mode)
    ensures mode == 0 && count * 4 <= UINT64_MAX ==> r == count * 4
  {
    if mode == 0 then SizeMul(count, 4)
    else if mode == 1 then SizeMul(count, 8)
    else UINT64_MAX
  }

  /** The width of a mode is the size of the union member it selects: GetOffsetByCount
      gives it for one offset, and its bytes hold exactly the values of a uint32_t in mode 0
      and of a uint64_t in mode 1. */
  lemma WidthIsMemberSize(mode: byte)
    requires ValidMode(mode)
    ensures Width(mode) == GetOffsetByCount(mode, 1)
    ensures Pow256(Width(mode)) == if mode == 0 then UINT32_MAX + 1 else UINT64_MAX + 1
  {
    Pow256Values();
  }

  /** CPOffset_ToSizeT: the selected member as a host ssize_t, or -2 for an invalid mode.
      On a 32-bit host a 64-bit offset above UINT32_MAX gives -1. */
  function ToSizeT(host: Host, mode: byte, off: Offset): (r: int)
    ensures !ValidMode(mode) ==> r == -2
    ensures ValidMode(mode) && off.View(mode) <= SSizeMax(host) ==> r == off.View(mode)
    ensures ValidMode(mode) && off.View(mode) <= SizeMax(host) ==> AsSize(host, r) == off.View(mode)
    ensures host == Host32 && mode == 1 && off.O64() > UINT32_MAX ==> r == -1
    ensures -(SSizeMax(host) + 1) <= r <= SSizeMax(host)
  {
    match host
    case Host64 =>
      if mode == 0 then AsSizeOfAsSSize(host, off.O32()); AsSSize(host, off.O32())
      else if mode == 1 then AsSizeOfAsSSize(host, off.O64()); AsSSize(host, off.O64())
      else -2
    case Host32 =>
      if mode == 0 then AsSizeOfAsSSize(host, off.O32()); AsSSize(host, off.O32())
      else if mode == 1 then
        if off.O64() > UINT32_MAX then -1
        else AsSizeOfAsSSize(host, off.O64()); AsSSize(host, off.O64())
      else -2
  }

  /** CPOffset_FromSize_T: stores a size_t value into the member selected by `mode`.
      `prior` is the union before the call; a failure leaves it unwritten. */
  function FromSizeT(host: Host, mode: byte, value: nat, prior: Offset): (r: Result<Offset, OffsetError>)
    requires value <= SizeMax(host)
    ensures r == Failure(InvalidByteMode) <==> !ValidMode(mode)
    ensures r == Failure(OutOfRange) <==> host == Host64 && mode == 0 && value > UINT32_MAX
    ensures r.Success? ==> r.value.View(mode) == value
    ensures r.Success? && mode == 0 ==> r.value.High() == prior.High()
  {
    match host
    case Host64 =>
      if mode == 0 then
        if value > UINT32_MAX then Failure(OutOfRange) else Success(prior.WithO32(value))
      else if mode == 1 then Success(Offset(value))
      else Failure(InvalidByteMode)
    case Host32 =>
      if mode == 0 then Success(prior.WithO32(value))
      else if mode == 1 then Success(Offset(value))
      else Failure(InvalidByteMode)
  }

  /** Round trip: a value that fits the mode's width and the host's size_t comes back
      from ToSizeT (after the caller's cast back to size_t) unchanged, and unchanged
      even as an ssize_t when it is at most SSIZE_MAX. */
  lemma SizeRoundTrip(host: Host, mode: byte, value: nat, prior: Offset)
    requires ValidMode(mode)
    requires value <= SizeMax(host)
    requires value < Pow256(Width(mode))
    ensures FromSizeT(host, mode, value, prior).Success?
    ensures AsSize(host, ToSizeT(host, mode, FromSizeT(host, mode, value, prior).value)) == value
    ensures value <= SSizeMax(host) ==> ToSizeT(host, mode, FromSizeT(host, mode, value, prior).value) == value
  {
    Pow256Values();
  }

  /** CPOffset_ReadFromMemory. `mem` is the `buffer_size` bytes starting at `buffer`;
      the first Width(mode) of them hold the offset. */
  function ReadFromMemory(mode: byte, mem: seq<byte>, prior: Offset): (r: Result<Offset, OffsetError>)
    ensures r == Failure(InvalidByteMode) <==> !ValidMode(mode)
    ensures r == Failure(OutOfRange) <==> ValidMode(mode) && |mem| < Width(mode)
    ensures r.Success? ==> r.value.View(mode) == DecodeLE(mem[..Width(mode)])
    ensures r.Success? && mode == 0 ==> r.value.High() == prior.High()
  {
    if mode == 0 then
      if |mem| < 4 then Failure(OutOfRange)
      else
        Pow256Values();
        Success(prior.WithO32(DecodeLE(mem[..4])))
    else if mode == 1 then
      if |mem| < 8 then Failure(OutOfRange)
      else
        Pow256Values();
        Success(Offset(DecodeLE(mem[..8])))
    else Failure(InvalidByteMode)
  }

  /** CPOffset_WriteToMemory: stores the selected member into the first Width(mode) bytes
      of `mem`; the result is the whole region after the call. */
  function WriteToMemory(mode: byte, off: Offset, mem: seq<byte>): (r: Result<seq<byte>, OffsetError>)
    ensures r == Failure(InvalidByteMode) <==> !ValidMode(mode)
    ensures r == Failure(OutOfRange) <==> ValidMode(mode) && |mem| < Width(mode)
    ensures r.Success? ==> |r.value| == |mem| && r.value[Width(mode)..] == mem[Width(mode)..]
  {
    if mode == 0 then
      if |mem| < 4 then Failure(OutOfRange)
      else
        Pow256Values();
        Success(EncodeLE(off.O32(), 4) + mem[4..])
    else if mode == 1 then
      if |mem| < 8 then Failure(OutOfRange)
      else
        Pow256Values();
        Success(EncodeLE(off.O64(), 8) + mem[8..])
    else Failure(InvalidByteMode)
  }

  /** A read looks at the first Width(mode) bytes only. */
  lemma ReadUsesOnlyWidth(mode: byte, mem1: seq<byte>, mem2: seq<byte>, prior: Offset)
    requires ValidMode(mode)
    requires |mem1| >= Width(mode) && |mem2| >= Width(mode)
    requires mem1[..Width(mode)] == mem2[..Width(mode)]
    ensures ReadFromMemory(mode, mem1, prior) == ReadFromMemory(mode, mem2, prior)
  {
  }

  /** Writing an offset and reading it back with the same mode yields the same member. */
  lemma WriteThenRead(mode: byte, off: Offset, mem: seq<byte>, prior: Offset)
    requires ValidMode(mode)
    requires |mem| >= Width(mode)
    ensures WriteToMemory(mode, off, mem).Success?
    ensures ReadFromMemory(mode, WriteToMemory(mode, off, mem).value, prior).Success?
    ensures ReadFromMemory(mode, WriteToMemory(mode, off, mem).value, prior).value.View(mode) == off.View(mode)
  {
    Pow256Values();
    var w := Width(mode);
    var written := WriteToMemory(mode, off, mem).value;
    assert written[..w] == EncodeLE(off.View(mode), w);
    DecodeEncode(off.View(mode), w);
  }

  /** Writing back an offset just read leaves the buffer as it was. */
  lemma ReadThenWrite(mode: byte, mem: seq<byte>, prior: Offset)
    requires ReadFromMemory(mode, mem, prior).Success?
    ensures WriteToMemory(mode, ReadFromMemory(mode, mem, prior).value, mem) == Success(mem)
  {
    var w := Width(mode);
    EncodeDecode(mem[..w]);
    assert mem == mem[..w] + mem[w..];
  }
}
