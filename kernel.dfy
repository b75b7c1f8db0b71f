/** The kernel's side of one FS_IOC_FIEMAP ioctl, reduced to what
    fiemap.go relies on: the kernel reads the request header at the address
    it is given, and either fails with an error number or writes the number
    of mapped extents into the header and the extents themselves right after
    the header. Which extents it reports is an oracle: any function of the
    header it reads. */
module Kernel {
  import opened FiemapAbi

  /** A nonzero error number (Go's syscall.Errno, where 0 means success). */
  type Errno = e: nat | e != 0 witness 1

  /** ioctl(2) on a request number the file does not handle. */
  const ENOTTY: Errno := 25

  /** A batch of extents from one call. The kernel never maps more extents
      than fm_extent_count, which fiemap.go always sets to NumExts. */
  type Batch = s: seq<Extent> | |s| <= NumExts

  /** What the kernel answers to one FS_IOC_FIEMAP call. */
  datatype Reply = Failed(errno: Errno) | Mapped(extents: Batch)

  /** The kernel's behaviour for one call: its answer to the header it reads. */
  type Kernel = FiemapHeader -> Reply

  /** ioctl(fd, cmd, ptr), where `ptr` is the byte offset into `buf` at which
      the caller placed the request header. The header lies in the tail of
      slot `ptr / ExtentSize`, as HeaderView reads it, and the kernel writes
      the extents from byte `ptr + FiemapSize` on, which is the start of the
      next slot. Returns 0 on success and the error number otherwise.
      Simplification: on an error nothing is written, whereas Linux may still
      copy fm_flags and fm_mapped_extents back; FiemapCall discards the
      buffer on an error, so this does not affect its result. */
  method Ioctl(kernel: Kernel, cmd: nat, buf: array<Extent>, ptr: nat) returns (errno: nat)
    requires ptr % ExtentSize == HeaderOffset
    requires ptr / ExtentSize + 1 + NumExts <= buf.Length
    modifies buf
    ensures cmd != FS_IOC_FIEMAP ==> errno == ENOTTY && buf[..] == old(buf[..])
    ensures cmd == FS_IOC_FIEMAP ==>
      var slot := ptr / ExtentSize;
      var h := HeaderView(old(buf[slot]));
      match kernel(h)
      case Failed(e) => errno == e && buf[..] == old(buf[..])
      case Mapped(b) =>
        && errno == 0
        && buf[slot] == WithHeader(old(buf[slot]), h.(mappedExtents := |b|))
        && buf[slot + 1..slot + 1 + |b|] == b
        && buf[..slot] == old(buf[..slot])
        && buf[slot + 1 + |b|..] == old(buf[slot + 1 + |b|..])
  {
    if cmd != FS_IOC_FIEMAP {
      return ENOTTY;
    }
    var slot := ptr / ExtentSize;
    var first := (ptr + FiemapSize) / ExtentSize;
    assert first == slot + 1;
    var h := HeaderView(buf[slot]);
    match kernel(h)
    case Failed(e) =>
      errno := e;
    case Mapped(b) =>
      forall i | 0 <= i < |b| {
        buf[first + i] := b[i];
      }
      buf[slot] := WithHeader(buf[slot], h.(mappedExtents := |b|));
      errno := 0;
  }
}
