/** The PE machine-type sniffer of vpm (VpmUtils.GetMachineType): read the
    first 4096 bytes of a file into a zeroed buffer, take the little-endian
    Int32 at offset 60 (e_lfanew of the MS-DOS stub, section 3.1 of the
    Microsoft PE/COFF specification) as a pointer P, and return the
    little-endian UInt16 at P + 4 (the Machine field of the COFF file header,
    sections 3.3 and 3.3.1, after the 4-byte "PE\0\0" signature) cast to the
    MachineType enumeration. Neither signature is checked.
    Line numbers in the comments refer to vpm/src/vpm/utils.cs. */
module PeImage {
  import opened Wrappers

  type byte = b: int | 0 <= b < 0x100
  type uint16 = x: int | 0 <= x < 0x1_0000
  type int32 = x: int | -0x8000_0000 <= x < 0x8000_0000

  /** Size of the buffer the file prefix is read into. */
  const BufferSize: nat := 4096
  /** Offset of the pointer to the PE header inside the MS-DOS header. */
  const PePointerOffset: int := 60
  /** Distance from the PE header start to the Machine field (the signature). */
  const MachineOffset: int := 4

  /** The C# enum is backed by an int and the cast never validates, so a code
      outside the four named members survives as an unnamed enum value. */
  datatype MachineType = Native | X86 | Itanium | X64 | Unnamed(code: uint16)
  {
    /** The numeric value of the enum member. */
    function Code(): uint16 {
      match this
      case Native => 0x0000
      case X86 => 0x014c
      case Itanium => 0x0200
      case X64 => 0x8664
      case Unnamed(c) => c
    }

    /** Each numeric value has one representation: Unnamed only holds codes
        that have no name. */
    predicate Valid() {
      Unnamed? ==> !IsNamedCode(code)
    }
  }

  predicate IsNamedCode(c: int) {
    c == 0x0000 || c == 0x014c || c == 0x0200 || c == 0x8664
  }

  /** The cast `(MachineType) machineUint`. */
  function FromCode(c: uint16): (m: MachineType)
    ensures m.Valid() && m.Code() == c
    ensures IsNamedCode(c) <==> !m.Unnamed?
  {
    if c == 0x0000 then Native
    else if c == 0x014c then X86
    else if c == 0x0200 then Itanium
    else if c == 0x8664 then X64
    else Unnamed(c)
  }

  /** The cast loses nothing: every valid enum value is the cast of its code. */
  lemma {:induction false} FromCodeOfCode(m: MachineType)
    requires m.Valid()
    ensures FromCode(m.Code()) == m
  {
    match m
    case Native =>
    case X86 =>
    case Itanium =>
    case X64 =>
    case Unnamed(c) =>
  }

  // ---------------------------------------------------------------------
  // Little-endian integers and BitConverter

  /** Reference reading of a byte string as an unsigned little-endian number. */
  function LittleEndian(bytes: seq<byte>): nat {
    if bytes == [] then 0 else bytes[0] + 0x100 * LittleEndian(bytes[1..])
  }

  /** Two's-complement reinterpretation of an unsigned 32-bit value. */
  function ToSigned32(u: int): (x: int32)
    requires 0 <= u < 0x1_0000_0000
    ensures x % 0x1_0000_0000 == u
  {
    if u < 0x8000_0000 then u else u - 0x1_0000_0000
  }

  /** C#'s unchecked int addition: the mathematical sum wrapped to 32 bits. */
  function AddInt32(a: int32, b: int32): (r: int32)
    ensures r % 0x1_0000_0000 == (a + b) % 0x1_0000_0000
    ensures -0x8000_0000 <= a + b < 0x8000_0000 ==> r == a + b
  {
    ToSigned32((a + b) % 0x1_0000_0000)
  }

  /** The two exceptions BitConverter.ToXxx(value, startIndex) throws. */
  datatype ReadError =
    | ArgumentOutOfRange(startIndex: int)   // startIndex < 0 or >= value.Length
    | ArrayPlusOffTooSmall(startIndex: int) // fewer than `size` bytes left

  /** The bounds checks BitConverter makes before reading `size` bytes. */
  function CheckRead(buf: seq<byte>, start: int, size: nat): (r: Option<ReadError>)
    requires size > 0
    ensures r.None? <==> 0 <= start && start + size <= |buf|
    ensures r == Some(ArgumentOutOfRange(start)) <==> start < 0 || start >= |buf|
    ensures r == Some(ArrayPlusOffTooSmall(start)) <==> 0 <= start < |buf| && start + size > |buf|
  {
    if start < 0 || start >= |buf| then Some(ArgumentOutOfRange(start))
    else if start > |buf| - size then Some(ArrayPlusOffTooSmall(start))
    else None
  }

  /** BitConverter.ToUInt16 on a little-endian host. */
  function ToUInt16(buf: seq<byte>, start: int): (r: Result<uint16, ReadError>)
    ensures r.Success? <==> 0 <= start && start + 2 <= |buf|
    ensures r.Success? ==> r.value == LittleEndian(buf[start..start + 2])
    ensures r.Failure? ==> r.error.startIndex == start
  {
    match CheckRead(buf, start, 2)
    case Some(e) => Failure(e)
    case None =>
      var bytes := buf[start..start + 2];
      assert LittleEndian(bytes[1..][1..]) == 0;
      Success(bytes[0] as int + 0x100 * bytes[1] as int)
  }

  /** BitConverter.ToInt32 on a little-endian host. */
  function ToInt32(buf: seq<byte>, start: int): (r: Result<int32, ReadError>)
    ensures r.Success? <==> 0 <= start && start + 4 <= |buf|
    ensures r.Success? ==> r.value % 0x1_0000_0000 == LittleEndian(buf[start..start + 4])
    ensures r.Failure? ==> r.error.startIndex == start
  {
    match CheckRead(buf, start, 4)
    case Some(e) => Failure(e)
    case None =>
      LittleEndian4(buf[start..start + 4]);
      Success(ToSigned32(LittleEndian(buf[start..start + 4])))
  }

  /** Four little-endian bytes, written out; they fit in 32 bits. */
  lemma {:induction false} LittleEndian4(bytes: seq<byte>)
    requires |bytes| == 4
    ensures LittleEndian(bytes)
      == bytes[0] as int + 0x100 * bytes[1] as int + 0x1_0000 * bytes[2] as int + 0x100_0000 * bytes[3] as int
    ensures LittleEndian(bytes) < 0x1_0000_0000
  {
    var b1, b2, b3 := bytes[1..], bytes[2..], bytes[3..];
    assert b1[1..] == b2 && b2[1..] == b3 && b3[1..] == [];
    assert LittleEndian(b3) == bytes[3] as int;
    assert LittleEndian(b2) == bytes[2] as int + 0x100 * bytes[3] as int;
  }

  /** Two little-endian bytes, written out. */
  lemma {:induction false} LittleEndian2(bytes: seq<byte>)
    requires |bytes| == 2
    ensures LittleEndian(bytes) == bytes[0] as int + 0x100 * bytes[1] as int
  {
    assert bytes[1..][1..] == [];
    assert LittleEndian(bytes[1..]) == bytes[1] as int;
  }

  // ---------------------------------------------------------------------
  // The buffer and the decode

  function Zeros(n: nat): (z: seq<byte>)
    ensures |z| == n && forall i :: 0 <= i < n ==> z[i] == 0
  {
    seq(n, _ => 0)
  }

  /** The 4096-byte buffer after `new byte[4096]` and `s.Read(data, 0, 4096)`,
      assuming the read delivers every byte available up to 4096. */
  function Fill(file: seq<byte>): (buf: seq<byte>)
    ensures |buf| == BufferSize
    ensures forall i :: 0 <= i < BufferSize ==> buf[i] == if i < |file| then file[i] else 0
  {
    if |file| >= BufferSize then file[..BufferSize] else file + Zeros(BufferSize - |file|)
  }

  /** Lines 33-35: the two BitConverter reads and the cast. */
  function Decode(buf: seq<byte>): (r: Result<MachineType, ReadError>)
    ensures r.Success? ==> r.value.Valid()
  {
    match ToInt32(buf, PePointerOffset)
    case Failure(e) => Failure(e)
    case Success(p) =>
      match ToUInt16(buf, AddInt32(p, MachineOffset))
      case Failure(e) => Failure(e)
      case Success(c) => Success(FromCode(c))
  }

  /** Why GetMachineType fails. */
  datatype SniffError =
    | CannotOpen               // the FileStream constructor throws
    | BadRead(error: ReadError)

  /** GetMachineType as a function of the file: None when it cannot be opened,
      otherwise its contents. */
  function Sniff(file: Option<seq<byte>>): Result<MachineType, SniffError> {
    match file
    case None => Failure(CannotOpen)
    case Some(f) =>
      match Decode(Fill(f))
      case Failure(e) => Failure(BadRead(e))
      case Success(m) => Success(m)
  }

  /** Lines 23-36 step by step: allocate the zeroed buffer, let the read
      fill it, decode it. */
  method GetMachineType(file: Option<seq<byte>>) returns (r: Result<MachineType, SniffError>)
    ensures r == Sniff(file)
  {
    if file.None? {
      return Failure(CannotOpen);
    }
    var contents := file.value;
    var data := new byte[BufferSize](_ => 0);
    var n := if |contents| < BufferSize then |contents| else BufferSize;
    forall i | 0 <= i < n {
      data[i] := contents[i];
    }
    assert data[..] == Fill(contents);
    // The read at offset 60 always lies inside the 4096-byte buffer.
    var p := ToInt32(data[..], PePointerOffset);
    assert p.Success?;
    var machine := ToUInt16(data[..], AddInt32(p.value, MachineOffset));
    if machine.Failure? {
      return Failure(BadRead(machine.error));
    }
    r := Success(FromCode(machine.value));
  }

  // ---------------------------------------------------------------------
  // What the sniffer promises

  /** The pointer the MS-DOS header holds: the signed little-endian Int32 at
      offset 60. */
  function HeaderPointer(buf: seq<byte>): int32
    requires |buf| >= PePointerOffset + 4
  {
    LittleEndian4(buf[PePointerOffset..PePointerOffset + 4]);
    ToSigned32(LittleEndian(buf[PePointerOffset..PePointerOffset + 4]))
  }

  /** Two 32-bit patterns that agree modulo 2^32 are the same Int32. */
  lemma {:induction false} SameInt32(x: int32, u: int)
    requires 0 <= u < 0x1_0000_0000 && x % 0x1_0000_0000 == u
    ensures x == ToSigned32(u)
  {
    if x < 0 {
      assert x + 0x1_0000_0000 == u;
    }
  }

  /** The offset-60 read never fails on the 4096-byte buffer, and the decode
      succeeds exactly when P + 4 leaves room for two bytes, i.e. when P lies
      in -4..4090; the result is then the UInt16 at P + 4. Every other P,
      including the ones where P + 4 wraps around, ends in the BitConverter
      exception of the read at the wrapped P + 4. */
  lemma {:induction false} SniffOutcome(f: seq<byte>)
    ensures var buf := Fill(f); var p := HeaderPointer(buf);
      && (Sniff(Some(f)).Success? <==> -4 <= p <= BufferSize - 6)
      && (-4 <= p <= BufferSize - 6 ==>
            Sniff(Some(f)) == Success(FromCode(LittleEndian(buf[p + 4..p + 6]))))
      && (Sniff(Some(f)).Failure? ==> Sniff(Some(f)).error.BadRead?)
    ensures ToInt32(Fill(f), PePointerOffset) == Success(HeaderPointer(Fill(f)))
    ensures Sniff(Some(f)).Failure? ==>
      Sniff(Some(f)).error.error.startIndex == AddInt32(HeaderPointer(Fill(f)), MachineOffset)
  {
    var buf := Fill(f);
    var pr := ToInt32(buf, PePointerOffset);
    assert pr.Success?;
    LittleEndian4(buf[PePointerOffset..PePointerOffset + 4]);
    SameInt32(pr.value, LittleEndian(buf[PePointerOffset..PePointerOffset + 4]));
    var p := pr.value;
    if p <= 0x7fff_ffff - MachineOffset {
      assert AddInt32(p, MachineOffset) == p + 4;
    } else {
      assert AddInt32(p, MachineOffset) < 0;
    }
  }

  /** Bytes past the first 4096 never affect the result. */
  lemma {:induction false} SniffIgnoresTail(f: seq<byte>, tail: seq<byte>)
    requires |f| >= BufferSize
    ensures Sniff(Some(f + tail)) == Sniff(Some(f))
  {
    assert Fill(f + tail) == Fill(f) by {
      forall i | 0 <= i < BufferSize
        ensures Fill(f + tail)[i] == Fill(f)[i]
      {
      }
    }
  }

  /** A file shorter than the buffer reads exactly as if it were padded with
      zero bytes: the short read leaves the zeroes of the fresh buffer. */
  lemma {:induction false} SniffZeroPadding(f: seq<byte>, k: nat)
    ensures Sniff(Some(f + Zeros(k))) == Sniff(Some(f))
  {
    assert Fill(f + Zeros(k)) == Fill(f) by {
      forall i | 0 <= i < BufferSize
        ensures Fill(f + Zeros(k))[i] == Fill(f)[i]
      {
      }
    }
  }

  /** The byte at `i`, or 0 past the end of the file. */
  function ByteAt(f: seq<byte>, i: nat): byte {
    if i < |f| then f[i] else 0
  }

  /** A file that ends before the pointer field is not rejected: the pointer
      reads as 0 and the Machine field is taken from offsets 4 and 5. */
  lemma {:induction false} ShortFileUsesPointerZero(f: seq<byte>)
    requires |f| <= PePointerOffset
    ensures HeaderPointer(Fill(f)) == 0
    ensures Sniff(Some(f)) == Success(FromCode(ByteAt(f, 4) + 0x100 * ByteAt(f, 5)))
  {
    var buf := Fill(f);
    var ptr := buf[PePointerOffset..PePointerOffset + 4];
    LittleEndian4(ptr);
    SniffOutcome(f);
    LittleEndian2(buf[4..6]);
  }

  // ---------------------------------------------------------------------
  // Writing a header, and reading it back

  /** The little-endian bytes of a UInt16. */
  function EncodeUInt16(c: uint16): (bytes: seq<byte>)
    ensures |bytes| == 2
  {
    [c % 0x100, c / 0x100]
  }

  /** The little-endian two's-complement bytes of an Int32. */
  function EncodeInt32(x: int32): (bytes: seq<byte>)
    ensures |bytes| == 4
  {
    var u := x % 0x1_0000_0000;
    var q1 := u / 0x100;
    var q2 := q1 / 0x100;
    var q3 := q2 / 0x100;
    [u % 0x100, q1 % 0x100, q2 % 0x100, q3]
  }

  lemma {:induction false} UInt16RoundTrip(c: uint16)
    ensures LittleEndian(EncodeUInt16(c)) == c
  {
    LittleEndian2(EncodeUInt16(c));
  }

  lemma {:induction false} Int32RoundTrip(x: int32)
    ensures LittleEndian(EncodeInt32(x)) < 0x1_0000_0000
    ensures ToSigned32(LittleEndian(EncodeInt32(x))) == x
  {
    var u := x % 0x1_0000_0000;
    var q1 := u / 0x100;
    var q2 := q1 / 0x100;
    var q3 := q2 / 0x100;
    assert u == u % 0x100 + 0x100 * q1;
    assert q1 == q1 % 0x100 + 0x100 * q2;
    assert q2 == q2 % 0x100 + 0x100 * q3;
    LittleEndian4(EncodeInt32(x));
    assert LittleEndian(EncodeInt32(x)) == u;
    SameInt32(x, u);
  }

  /** `buf` with `bytes` written at offset `at`. */
  function Splice(buf: seq<byte>, at: nat, bytes: seq<byte>): (r: seq<byte>)
    requires at + |bytes| <= |buf|
    ensures |r| == |buf|
    ensures r[at..at + |bytes|] == bytes
    ensures forall i :: 0 <= i < |buf| && !(at <= i < at + |bytes|) ==> r[i] == buf[i]
  {
    buf[..at] + bytes + buf[at + |bytes|..]
  }

  /** A 4096-byte image, zero except for the pointer `p` at offset 60 and
      the machine code `c` at p + 4. */
  function Image(p: int32, c: uint16): seq<byte>
    requires -4 <= p <= BufferSize - 6
  {
    Splice(Splice(Zeros(BufferSize), PePointerOffset as nat, EncodeInt32(p)), (p + 4) as nat, EncodeUInt16(c))
  }

  /** Round trip: the sniffer reads back the code written at P + 4 for every
      accepted pointer P whose Machine field does not overlap the pointer
      field itself (P + 4 .. P + 5 outside 60 .. 63). */
  lemma {:induction false} SniffImageRoundTrip(p: int32, c: uint16)
    requires -4 <= p <= BufferSize - 6
    requires p + 6 <= PePointerOffset || PePointerOffset + 4 <= p + 4
    ensures Sniff(Some(Image(p, c))) == Success(FromCode(c))
  {
    var img := Image(p, c);
    var withPointer := Splice(Zeros(BufferSize), PePointerOffset as nat, EncodeInt32(p));
    assert Fill(img) == img;
    assert img[PePointerOffset..PePointerOffset + 4] == EncodeInt32(p) by {
      forall i | PePointerOffset <= i < PePointerOffset + 4
        ensures img[i] == withPointer[i]
      {
      }
    }
    Int32RoundTrip(p);
    assert HeaderPointer(img) == p;
    UInt16RoundTrip(c);
    SniffOutcome(img);
  }

  /** An example: pointer 128 at offset 60 and the bytes 64 86 at
      offsets 132-133 give x64. */
  lemma ExampleX64()
    ensures Sniff(Some(Image(128, 0x8664))) == Success(X64)
  {
    SniffImageRoundTrip(128, 0x8664);
  }
}
