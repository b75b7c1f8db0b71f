/** The FIEMAP kernel ABI as fiemap.go declares it: the unsigned integer
    widths, the `struct fiemap` request header and the `struct fiemap_extent`
    record, their byte layouts, the ioctl number FS_IOC_FIEMAP and the flag
    constants, together with the overlay that lets the request header share
    storage with the first extent slot. */
module FiemapAbi {

  const TWO_32: int := 0x1_0000_0000
  const TWO_64: int := 0x1_0000_0000_0000_0000

  /** Go's uint64 and uint32, as bounded integers. */
  type uint64 = x: int | 0 <= x < TWO_64
  type uint32 = x: int | 0 <= x < TWO_32

  /** Go's wrapping uint64 arithmetic: the exact result reduced modulo 2^64
      (Dafny's `%` never yields a negative value, so this also covers the
      wrap-around of a subtraction that goes below zero). */
  function Wrap(x: int): (r: uint64)
    ensures 0 <= x < TWO_64 ==> r == x
  {
    x % TWO_64
  }

  // sizeof(struct fiemap) and sizeof(struct fiemap_extent)
  const FiemapSize: nat := 32
  const ExtentSize: nat := 56

  // the ioctl request number, as fiemap.go writes it down
  const FS_IOC_FIEMAP: nat := 3223348747

  // "map to the end of the file"
  const FIEMAP_MAX_OFFSET: uint64 := TWO_64 - 1

  // request flags (struct fiemap, in/out)
  const FIEMAP_FLAG_SYNC: bv32 := 0x0001
  const FIEMAP_FLAG_XATTR: bv32 := 0x0002
  const FIEMAP_FLAG_CACHE: bv32 := 0x0004
  const FIEMAP_FLAGS_COMPAT: bv32 := FIEMAP_FLAG_SYNC | FIEMAP_FLAG_XATTR

  // extent flags (struct fiemap_extent, out)
  const FIEMAP_EXTENT_LAST: bv32 := 0x0001
  const FIEMAP_EXTENT_UNKNOWN: bv32 := 0x0002
  const FIEMAP_EXTENT_DELALLOC: bv32 := 0x0004
  const FIEMAP_EXTENT_ENCODED: bv32 := 0x0008
  const FIEMAP_EXTENT_DATA_ENCRYPTED: bv32 := 0x0080
  const FIEMAP_EXTENT_NOT_ALIGNED: bv32 := 0x0100
  const FIEMAP_EXTENT_DATA_INLINE: bv32 := 0x0200
  const FIEMAP_EXTENT_DATA_TAIL: bv32 := 0x0400
  const FIEMAP_EXTENT_UNWRITTEN: bv32 := 0x0800
  const FIEMAP_EXTENT_MERGED: bv32 := 0x1000
  const FIEMAP_EXTENT_SHARED: bv32 := 0x2000

  // fallocate(2) modes
  const FALLOC_FL_KEEP_SIZE: bv32 := 0x01
  const FALLOC_FL_PUNCH_HOLE: bv32 := 0x02
  const FALLOC_FL_NO_HIDE_STALE: bv32 := 0x04

  // lseek(2) whence values
  const SEEK_SET: nat := 0
  const SEEK_CUR: nat := 1
  const SEEK_END: nat := 2
  const SEEK_DATA: nat := 3
  const SEEK_HOLE: nat := 4

  /** The number of extent slots one query asks the kernel to fill. */
  const NumExts: nat := 250

  /** `struct fiemap`: the request header, without its trailing flexible
      array of extents. */
  datatype FiemapHeader = FiemapHeader(
    start: uint64,          // logical offset at which to start mapping (in)
    length: uint64,         // logical length of the mapping (in)
    flags: bv32,            // FIEMAP_FLAG_* (in/out)
    mappedExtents: uint32,  // number of extents mapped (out)
    extentCount: uint32,    // capacity of the extent array (in)
    reserved: uint32)

  /** `struct fiemap_extent`: one mapped region. The two arrays
      `Reserved64 [2]uint64` and `Reserved [3]uint32` are spelled out
      element by element. */
  datatype Extent = Extent(
    logical: uint64,
    physical: uint64,
    length: uint64,
    reserved64_0: uint64,
    reserved64_1: uint64,
    flags: bv32,            // FIEMAP_EXTENT_*
    reserved_0: uint32,
    reserved_1: uint32,
    reserved_2: uint32)

  /** The zero value of an extent, which a freshly made Go slice holds. */
  const ZeroExtent: Extent := Extent(0, 0, 0, 0, 0, 0, 0, 0, 0)

  /** Whether an extent carries FIEMAP_EXTENT_LAST. */
  predicate IsLast(e: Extent) {
    FIEMAP_EXTENT_LAST & e.flags == FIEMAP_EXTENT_LAST
  }

  // ---------------------------------------------------------------------
  // Byte layout

  /** A field width in bytes; Go aligns each integer field to its width. */
  type Width = w: nat | w > 0 witness 1

  /** Field widths in bytes, in declaration order. */
  const FiemapFieldWidths: seq<Width> := [8, 8, 4, 4, 4, 4]
  const ExtentFieldWidths: seq<Width> := [8, 8, 8, 8, 8, 4, 4, 4, 4]

  /** The sum of the first `n` widths. */
  function SumTo(ws: seq<Width>, n: nat): nat
    requires n <= |ws|
  {
    if n == 0 then 0 else SumTo(ws, n - 1) + ws[n - 1]
  }

  /** The widest of the first `n` widths (1 if there are none). */
  function MaxTo(ws: seq<Width>, n: nat): Width
    requires n <= |ws|
  {
    if n == 0 then 1
    else var m := MaxTo(ws, n - 1); if ws[n - 1] > m then ws[n - 1] else m
  }

  /** The least multiple of `a` that is at least `n`. */
  function AlignUp(n: nat, a: Width): nat {
    if n % a == 0 then n else n + (a - n % a)
  }

  /** The byte offset at which Go (like C) places field `j`: just past field
      j - 1, rounded up to field j's own width. */
  function FieldOffset(ws: seq<Width>, j: nat): nat
    requires j < |ws|
  {
    AlignUp(if j == 0 then 0 else FieldOffset(ws, j - 1) + ws[j - 1], ws[j])
  }

  /** sizeof: just past the last field, rounded up to the widest field. */
  function StructSize(ws: seq<Width>): nat {
    if ws == [] then 0
    else AlignUp(FieldOffset(ws, |ws| - 1) + ws[|ws| - 1], MaxTo(ws, |ws|))
  }

  /** Where each field of `struct fiemap` lands, computed field by field. */
  lemma FiemapOffsets()
    ensures FieldOffset(FiemapFieldWidths, 0) == 0
    ensures FieldOffset(FiemapFieldWidths, 1) == 8
    ensures FieldOffset(FiemapFieldWidths, 2) == 16
    ensures FieldOffset(FiemapFieldWidths, 3) == 20
    ensures FieldOffset(FiemapFieldWidths, 4) == 24
    ensures FieldOffset(FiemapFieldWidths, 5) == 28
    ensures StructSize(FiemapFieldWidths) == 32
  {
    var ws := FiemapFieldWidths;
    assert FieldOffset(ws, 0) == 0;
    assert FieldOffset(ws, 1) == 8;
    assert FieldOffset(ws, 2) == 16;
    assert FieldOffset(ws, 3) == 20;
    assert FieldOffset(ws, 4) == 24;
    assert MaxTo(ws, 6) == 8;
  }

  /** Where each field of `struct fiemap_extent` lands. */
  lemma ExtentOffsets()
    ensures FieldOffset(ExtentFieldWidths, 0) == 0
    ensures FieldOffset(ExtentFieldWidths, 1) == 8
    ensures FieldOffset(ExtentFieldWidths, 2) == 16
    ensures FieldOffset(ExtentFieldWidths, 3) == 24
    ensures FieldOffset(ExtentFieldWidths, 4) == 32
    ensures FieldOffset(ExtentFieldWidths, 5) == 40
    ensures FieldOffset(ExtentFieldWidths, 6) == 44
    ensures FieldOffset(ExtentFieldWidths, 7) == 48
    ensures FieldOffset(ExtentFieldWidths, 8) == 52
    ensures StructSize(ExtentFieldWidths) == 56
  {
    var ws := ExtentFieldWidths;
    assert FieldOffset(ws, 0) == 0;
    assert FieldOffset(ws, 1) == 8;
    assert FieldOffset(ws, 2) == 16;
    assert FieldOffset(ws, 3) == 24;
    assert FieldOffset(ws, 4) == 32;
    assert FieldOffset(ws, 5) == 40;
    assert FieldOffset(ws, 6) == 44;
    assert FieldOffset(ws, 7) == 48;
    assert MaxTo(ws, 9) == 8;
  }

  /** FiemapSize is sizeof(struct fiemap): no field needs padding, so each
      field starts where the widths before it add up to, and the size is
      the sum 8+8+4+4+4+4. */
  lemma FiemapLayout()
    ensures forall j :: 0 <= j < |FiemapFieldWidths| ==>
      FieldOffset(FiemapFieldWidths, j) == SumTo(FiemapFieldWidths, j)
    ensures StructSize(FiemapFieldWidths) == SumTo(FiemapFieldWidths, 6) == FiemapSize
  {
    var ws := FiemapFieldWidths;
    FiemapOffsets();
    forall j | 0 <= j < |ws| ensures FieldOffset(ws, j) == SumTo(ws, j) {
      if j == 0 {} else if j == 1 {} else if j == 2 {} else if j == 3 {} else if j == 4 {} else {}
    }
  }

  /** ExtentSize is sizeof(struct fiemap_extent): again no padding, and the
      size is the sum 8+8+8+2*8+4+3*4. */
  lemma ExtentLayout()
    ensures forall j :: 0 <= j < |ExtentFieldWidths| ==>
      FieldOffset(ExtentFieldWidths, j) == SumTo(ExtentFieldWidths, j)
    ensures StructSize(ExtentFieldWidths) == SumTo(ExtentFieldWidths, 9) == ExtentSize
  {
    var ws := ExtentFieldWidths;
    ExtentOffsets();
    forall j | 0 <= j < |ws| ensures FieldOffset(ws, j) == SumTo(ws, j) {
      if j == 0 {} else if j == 1 {} else if j == 2 {} else if j == 3 {} else if j == 4 {}
      else if j == 5 {} else if j == 6 {} else if j == 7 {} else {}
    }
  }

  // ---------------------------------------------------------------------
  // The header overlay

  /** Where fiemap.go places the header inside its extent buffer: the
      header is shorter than an extent, so it is put at the tail of slot 0. */
  const HeaderOffset: nat := ExtentSize - FiemapSize

  /** Placed at byte 24, header field j occupies exactly the bytes of extent
      field 3 + j, with the same width; and the header ends exactly where
      slot 1 begins. This is what justifies HeaderView below. */
  lemma HeaderOverlaysSlotTail()
    ensures HeaderOffset == 24
    ensures HeaderOffset + FiemapSize == 1 * ExtentSize
    ensures forall j :: 0 <= j < |FiemapFieldWidths| ==>
      && 3 + j < |ExtentFieldWidths|
      && HeaderOffset + FieldOffset(FiemapFieldWidths, j) == FieldOffset(ExtentFieldWidths, 3 + j)
      && FiemapFieldWidths[j] == ExtentFieldWidths[3 + j]
  {
    var fs, es := FiemapFieldWidths, ExtentFieldWidths;
    FiemapOffsets();
    ExtentOffsets();
    forall j | 0 <= j < |fs|
      ensures HeaderOffset + FieldOffset(fs, j) == FieldOffset(es, 3 + j)
    {
      if j == 0 {} else if j == 1 {} else if j == 2 {} else if j == 3 {} else if j == 4 {} else {}
    }
  }

  /** The header that a slot's trailing 32 bytes hold, read field by field
      (see HeaderOverlaysSlotTail): header field j is extent field 3 + j,
        0 start         = 3 reserved64_0   (byte 24, 8 bytes)
        1 length        = 4 reserved64_1   (byte 32, 8 bytes)
        2 flags         = 5 flags          (byte 40, 4 bytes)
        3 mappedExtents = 6 reserved_0     (byte 44, 4 bytes)
        4 extentCount   = 7 reserved_1     (byte 48, 4 bytes)
        5 reserved      = 8 reserved_2     (byte 52, 4 bytes) */
  function HeaderView(slot: Extent): FiemapHeader {
    FiemapHeader(slot.reserved64_0, slot.reserved64_1, slot.flags,
                 slot.reserved_0, slot.reserved_1, slot.reserved_2)
  }

  /** The slot after the header `h` has been written over its tail. */
  function WithHeader(slot: Extent, h: FiemapHeader): (s: Extent)
    ensures HeaderView(s) == h
    ensures s.logical == slot.logical && s.physical == slot.physical && s.length == slot.length
  {
    slot.(reserved64_0 := h.start, reserved64_1 := h.length, flags := h.flags,
          reserved_0 := h.mappedExtents, reserved_1 := h.extentCount, reserved_2 := h.reserved)
  }

  /** Writing back the header a slot already holds changes nothing. */
  lemma WithOwnHeader(slot: Extent)
    ensures WithHeader(slot, HeaderView(slot)) == slot
  {
  }

  // ---------------------------------------------------------------------
  // The ioctl request number (Linux _IOC encoding: nr in bits 0-7, type in
  // bits 8-15, size in bits 16-29, direction in bits 30-31)

  const IOC_WRITE: bv32 := 1
  const IOC_READ: bv32 := 2

  function IOC(dir: bv32, typ: bv32, nr: bv32, size: bv32): (cmd: bv32)
    requires dir < 4 && typ < 0x100 && nr < 0x100 && size < 0x4000
    ensures cmd >> 30 == dir
    ensures (cmd >> 16) & 0x3FFF == size
    ensures (cmd >> 8) & 0xFF == typ
    ensures cmd & 0xFF == nr
  {
    (dir << 30) | (size << 16) | (typ << 8) | nr
  }

  /** _IOWR: the argument is both read and written by the kernel. */
  function IOWR(typ: bv32, nr: bv32, size: bv32): bv32
    requires typ < 0x100 && nr < 0x100 && size < 0x4000
  {
    IOC(IOC_READ | IOC_WRITE, typ, nr, size)
  }

  /** FS_IOC_FIEMAP is _IOWR('f', 11, struct fiemap). */
  lemma FsIocFiemapEncoding()
    ensures FS_IOC_FIEMAP == IOWR('f' as bv32, 11, FiemapSize as bv32) as int
    ensures FS_IOC_FIEMAP == 3 * 0x4000_0000 + 32 * 0x1_0000 + 0x66 * 0x100 + 11
  {
  }

  /** The two fallocate(2) modes fiemap.go uses: plain allocation, and
      hole punching that keeps the file size. */
  lemma FallocateModes()
    ensures FALLOC_FL_KEEP_SIZE | FALLOC_FL_PUNCH_HOLE == 3
    ensures FIEMAP_FLAGS_COMPAT == 3
  {
  }
}
